/** String operations the backup verifier relies on: Python's `in` on strings,
    `str.removeprefix` and `str.strip` with a single character. */
module Text {

  /** Appending is associative. */
  lemma AppendAssociative<T>(a: seq<T>, b: seq<T>, c: seq<T>)
    ensures a + b + c == a + (b + c)
  {
  }

  /** `t` occurs in `s` starting at index `i`. */
  ghost predicate OccursAt(t: string, s: string, i: int)
  {
    0 <= i && i + |t| <= |s| && s[i..i + |t|] == t
  }

  /** Python's `t in s` for strings: a left-to-right search for `t` as a
      contiguous run of `s` (the empty string occurs everywhere). */
  function Contains(s: string, t: string): bool
    decreases |s|
  {
    if t <= s then true
    else if s == [] then false
    else Contains(s[1..], t)
  }

  /** The search finds `t` exactly when `t` occurs somewhere in `s`. */
  lemma {:induction false} ContainsIff(s: string, t: string)
    ensures Contains(s, t) <==> exists i :: OccursAt(t, s, i)
    decreases |s|
  {
    if t <= s {
      assert OccursAt(t, s, 0);
    } else if s != [] {
      ContainsIff(s[1..], t);
      if Contains(s[1..], t) {
        var i :| OccursAt(t, s[1..], i);
        assert s[1..][i..i + |t|] == s[i + 1..i + 1 + |t|];
        assert OccursAt(t, s, i + 1);
      }
      if exists i :: OccursAt(t, s, i) {
        var i :| OccursAt(t, s, i);
        assert i != 0;
        assert s[1..][i - 1..i - 1 + |t|] == s[i..i + |t|];
        assert OccursAt(t, s[1..], i - 1);
      }
    }
  }

  /** An occurrence inside `s` is still an occurrence once `s` is extended
      on either side. */
  lemma {:induction false} ContainsExtended(a: string, s: string, b: string, t: string)
    requires Contains(s, t)
    ensures Contains(a + s + b, t)
  {
    ContainsIff(s, t);
    var i :| OccursAt(t, s, i);
    assert (a + s + b)[|a| + i..|a| + i + |t|] == s[i..i + |t|];
    assert OccursAt(t, a + s + b, |a| + i);
    ContainsIff(a + s + b, t);
  }

  /** Python's `s.removeprefix(p)`. */
  function RemovePrefix(s: string, p: string): (r: string)
    ensures p <= s ==> p + r == s
    ensures !(p <= s) ==> r == s
  {
    if p <= s then s[|p|..] else s
  }

  /** Every character of `s` is `c`. */
  predicate AllChar(s: string, c: char)
  {
    forall k :: 0 <= k < |s| ==> s[k] == c
  }

  /** Python's `s.lstrip(c)`: drops every leading `c`. */
  function TrimLeft(s: string, c: char): string
  {
    if s != [] && s[0] == c then TrimLeft(s[1..], c) else s
  }

  /** Left-trimming keeps a suffix, removes only `c`, and stops at a
      character that is not `c`. */
  lemma {:induction false} TrimLeftSpec(s: string, c: char)
    ensures |TrimLeft(s, c)| <= |s| && TrimLeft(s, c) == s[|s| - |TrimLeft(s, c)|..]
    ensures AllChar(s[..|s| - |TrimLeft(s, c)|], c)
    ensures TrimLeft(s, c) != [] ==> TrimLeft(s, c)[0] != c
  {
    if s != [] && s[0] == c {
      TrimLeftSpec(s[1..], c);
      var r := TrimLeft(s[1..], c);
      assert s[..|s| - |r|] == [c] + s[1..][..|s| - 1 - |r|];
    }
  }

  /** Python's `s.rstrip(c)`: drops every trailing `c`. */
  function TrimRight(s: string, c: char): string
  {
    if s != [] && s[|s| - 1] == c then TrimRight(s[..|s| - 1], c) else s
  }

  /** Right-trimming keeps a prefix, removes only `c`, and stops at a
      character that is not `c`. */
  lemma {:induction false} TrimRightSpec(s: string, c: char)
    ensures |TrimRight(s, c)| <= |s| && TrimRight(s, c) == s[..|TrimRight(s, c)|]
    ensures AllChar(s[|TrimRight(s, c)|..], c)
    ensures TrimRight(s, c) != [] ==> TrimRight(s, c)[|TrimRight(s, c)| - 1] != c
  {
    if s != [] && s[|s| - 1] == c {
      TrimRightSpec(s[..|s| - 1], c);
      var r := TrimRight(s[..|s| - 1], c);
      assert s[|r|..] == s[..|s| - 1][|r|..] + [c];
    }
  }

  /** `s` is `r` framed by a run of `i` leading and a run of trailing `c`. */
  ghost predicate StrippedAt(s: string, r: string, c: char, i: int)
  {
    && 0 <= i && i + |r| <= |s|
    && r == s[i..i + |r|]
    && AllChar(s[..i], c)
    && AllChar(s[i + |r|..], c)
  }

  /** `r` neither starts nor ends with `c`. */
  predicate Unpadded(r: string, c: char)
  {
    r != [] ==> r[0] != c && r[|r| - 1] != c
  }

  /** Python's `s.strip(c)`: drops every leading and every trailing `c`. */
  function Strip(s: string, c: char): string
  {
    TrimRight(TrimLeft(s, c), c)
  }

  /** Stripping leaves a core of `s` that neither starts nor ends with `c`,
      and removes nothing but runs of `c` around it. */
  lemma StripSpec(s: string, c: char)
    ensures Unpadded(Strip(s, c), c)
    ensures exists i :: StrippedAt(s, Strip(s, c), c, i)
  {
    TrimLeftSpec(s, c);
    var l := TrimLeft(s, c);
    TrimRightSpec(l, c);
    var r := TrimRight(l, c);
    var i := |s| - |l|;
    assert s[i + |r|..] == l[|r|..];
    assert StrippedAt(s, r, c, i);
  }

  /** Left-trimming stops at the first character that is not `c`. */
  lemma {:induction false} TrimLeftAt(s: string, c: char, i: int)
    requires 0 <= i < |s| && AllChar(s[..i], c) && s[i] != c
    ensures TrimLeft(s, c) == s[i..]
  {
    if i > 0 {
      assert s[..i][0] == s[0];
      assert s[1..][..i - 1] == s[..i][1..];
      TrimLeftAt(s[1..], c, i - 1);
      assert s[1..][i - 1..] == s[i..];
    }
  }

  /** Right-trimming stops after the last character that is not `c`. */
  lemma {:induction false} TrimRightAt(s: string, c: char, n: int)
    requires 0 < n <= |s| && AllChar(s[n..], c) && s[n - 1] != c
    ensures TrimRight(s, c) == s[..n]
    decreases |s|
  {
    if n < |s| {
      var t := s[..|s| - 1];
      assert s[n..][|s| - 1 - n] == s[|s| - 1];
      assert t[n..] == s[n..][..|s| - 1 - n];
      TrimRightAt(t, c, n);
      assert t[..n] == s[..n];
    }
  }

  /** The two properties of `Strip`'s contract determine its result: any
      unpadded core of `s` framed by runs of `c` is `Strip(s, c)`. */
  lemma StripUnique(s: string, r: string, c: char, i: int)
    requires StrippedAt(s, r, c, i) && Unpadded(r, c)
    ensures Strip(s, c) == r
  {
    if r == [] {
      assert AllChar(s, c) by {
        assert s == s[..i] + s[i..];
      }
      TrimLeftSpec(s, c);
    } else {
      var l := s[i..];
      assert s[i] == r[0];
      assert l[..|r|] == r && l[|r|..] == s[i + |r|..];
      TrimLeftAt(s, c, i);
      TrimRightAt(l, c, |r|);
    }
  }

  /** Stripping is insensitive to an extra `c` in front. */
  lemma StripPaddedLeft(s: string, c: char)
    ensures Strip([c] + s, c) == Strip(s, c)
  {
    assert ([c] + s)[1..] == s;
    assert TrimLeft([c] + s, c) == TrimLeft(s, c);
  }

  /** Left-trimming commutes with appending a `c`, unless nothing but `c`
      is left. */
  lemma {:induction false} TrimLeftAppend(s: string, c: char)
    ensures TrimLeft(s + [c], c) == if TrimLeft(s, c) == [] then [] else TrimLeft(s, c) + [c]
  {
    if s == [] {
      assert [c][1..] == [];
    } else if s[0] == c {
      assert (s + [c])[1..] == s[1..] + [c];
      TrimLeftAppend(s[1..], c);
    }
  }

  /** Stripping is insensitive to an extra `c` at the end. */
  lemma StripPaddedRight(s: string, c: char)
    ensures Strip(s + [c], c) == Strip(s, c)
  {
    TrimLeftAppend(s, c);
    var l := TrimLeft(s, c);
    if l != [] {
      assert (l + [c])[..|l|] == l;
    }
  }

  /** Stripping a string that neither starts nor ends with `c` changes
      nothing. */
  lemma StripUnpadded(s: string, c: char)
    requires Unpadded(s, c)
    ensures Strip(s, c) == s
  {
    assert TrimLeft(s, c) == s;
  }

  /** Stripping an unpadded string changes nothing, so stripping twice is
      stripping once. */
  lemma StripIdempotent(s: string, c: char)
    ensures Strip(Strip(s, c), c) == Strip(s, c)
  {
    var r := Strip(s, c);
    StripSpec(s, c);
    assert StrippedAt(r, r, c, 0);
    StripUnique(r, r, c, 0);
  }
}
