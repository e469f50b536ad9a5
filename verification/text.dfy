/**
 The Python `str` operations the bot's two handlers rely on, written out
 character by character: `strip()`, `startswith`, `split(" ", maxsplit)`,
 `replace(old, "")` and `sep.join(parts)`. A Python `str` is modelled as a
 `seq<char>`, whose elements are Unicode scalar values: the model assumes
 the texts hold no lone surrogates, which a Python `str` can.
 */
module Text {

  /** Python's `str.isspace()` for one character: the characters `strip()`
      with no argument removes. */
  predicate IsSpace(c: char)
  {
    || ('\t' <= c <= '\r')                  // tab, line feed, vertical tab, form feed, carriage return
    || ('\U{1c}' <= c <= '\U{1f}')          // file, group, record and unit separators
    || c == ' '
    || c == '\U{85}' || c == '\U{a0}' || c == '\U{1680}'
    || ('\U{2000}' <= c <= '\U{200a}')
    || c == '\U{2028}' || c == '\U{2029}' || c == '\U{202f}' || c == '\U{205f}' || c == '\U{3000}'
  }

  predicate AllSpace(s: string)
  {
    forall i :: 0 <= i < |s| ==> IsSpace(s[i])
  }

  /** `s.startswith(p)`: `s` is `p` followed by the rest of `s`. */
  predicate StartsWith(s: string, p: string)
    ensures StartsWith(s, p) <==> |p| <= |s| && s == p + s[|p|..]
  {
    |p| <= |s| && s[..|p|] == p
  }

  /** `p` occurs in `s` starting at index `i`. */
  predicate OccursAt(s: string, p: string, i: int)
  {
    0 <= i && i + |p| <= |s| && s[i..i + |p|] == p
  }

  /** `p in s` */
  predicate Contains(s: string, p: string)
  {
    exists i :: 0 <= i <= |s| - |p| && OccursAt(s, p, i)
  }

  /** `s.rstrip()` */
  function StripRight(s: string): (r: string)
    ensures |r| <= |s| && r == s[..|r|]
    ensures AllSpace(s[|r|..])
    ensures r == [] || !IsSpace(r[|r| - 1])
  {
    if |s| > 0 && IsSpace(s[|s| - 1]) then
      var t := s[..|s| - 1];
      var r := StripRight(t);
      assert r == s[..|r|] by { assert t[..|r|] == s[..|r|]; }
      assert AllSpace(s[|r|..]) by {
        forall k | |r| <= k < |s| ensures IsSpace(s[k]) {
          if k < |s| - 1 { assert s[k] == t[|r|..][k - |r|]; }
        }
      }
      r
    else
      s
  }

  /** `r` is what is left of `s` after cutting `i` whitespace characters off
      the front and only whitespace off the back. */
  predicate StripCut(s: string, i: int, r: string)
  {
    0 <= i <= |s| - |r| && s[i..i + |r|] == r && AllSpace(s[..i]) && AllSpace(s[i + |r|..])
  }

  /** Neither end of `s` is whitespace. */
  predicate Trimmed(s: string)
  {
    s == [] || (!IsSpace(s[0]) && !IsSpace(s[|s| - 1]))
  }

  /** `s.strip()`: whitespace off the front, then off the back. */
  function Strip(s: string): (r: string)
    ensures Trimmed(r)
  {
    if |s| > 0 && IsSpace(s[0]) then Strip(s[1..]) else StripRight(s)
  }

  /** A cut of `s[1..]` extends to `s` when `s` starts with whitespace. */
  lemma {:induction false} CutCons(s: string, j: int, r: string)
    requires |s| > 0 && IsSpace(s[0]) && StripCut(s[1..], j, r)
    ensures StripCut(s, j + 1, r)
  {
    var t := s[1..];
    assert t[j..j + |r|] == s[j + 1..j + 1 + |r|];
    assert t[j + |r|..] == s[j + 1 + |r|..];
    forall k | 1 <= k < j + 1 ensures IsSpace(s[k]) {
      assert s[k] == t[..j][k - 1];
    }
  }

  /** `strip()` cuts only whitespace, and keeps a contiguous part of `s`. */
  lemma {:induction false} StripCutOf(s: string)
    ensures exists i :: StripCut(s, i, Strip(s))
  {
    var r := Strip(s);
    if |s| > 0 && IsSpace(s[0]) {
      StripCutOf(s[1..]);
      var j :| StripCut(s[1..], j, r);
      CutCons(s, j, r);
    } else {
      assert s[0..|r|] == r && s[..0] == [];
      assert StripCut(s, 0, r);
    }
  }

  lemma {:induction false} CutOutside(s: string, i: int, r: string, k: int)
    requires StripCut(s, i, r) && 0 <= k < |s| && !(i <= k < i + |r|)
    ensures IsSpace(s[k])
  {
    if k < i { assert s[..i][k] == s[k]; } else { assert s[i + |r|..][k - i - |r|] == s[k]; }
  }

  lemma {:induction false} CutInside(s: string, i: int, r: string, k: int)
    requires StripCut(s, i, r) && i <= k < i + |r|
    ensures s[k] == r[k - i]
  {
    assert s[i..i + |r|][k - i] == s[k];
  }

  /** The two properties in Strip's contract pin its result down: `strip()`
      removes exactly the maximal whitespace runs at both ends. */
  lemma {:induction false} StripCharacterized(s: string, i: int, r: string)
    requires StripCut(s, i, r) && Trimmed(r)
    ensures r == Strip(s)
  {
    var t := Strip(s);
    StripCutOf(s);
    var j :| StripCut(s, j, t);
    if r != [] && t == [] {
      CutInside(s, i, r, i);
      CutOutside(s, j, t, i);
      assert false;
    }
    if r == [] && t != [] {
      CutInside(s, j, t, j);
      CutOutside(s, i, r, j);
      assert false;
    }
    if r != [] {
      if i < j {
        CutInside(s, i, r, i);
        CutOutside(s, j, t, i);
        assert false;
      }
      if j < i {
        CutInside(s, j, t, j);
        CutOutside(s, i, r, j);
        assert false;
      }
      if |r| < |t| {
        CutInside(s, j, t, j + |t| - 1);
        CutOutside(s, i, r, i + |t| - 1);
        assert false;
      }
      if |t| < |r| {
        CutInside(s, i, r, i + |r| - 1);
        CutOutside(s, j, t, j + |r| - 1);
        assert false;
      }
    }
  }

  /** Stripping twice strips nothing more. */
  lemma {:induction false} StripIdempotent(s: string)
    ensures Strip(Strip(s)) == Strip(s)
  {
    var t := Strip(s);
    assert StripCut(t, 0, t) by { assert t[0..|t|] == t; assert t[..0] == [] && t[|t|..] == []; }
    StripCharacterized(t, 0, t);
  }

  /** A string with no whitespace at either end is left as it is. */
  lemma {:induction false} StripTrimmed(s: string)
    requires Trimmed(s)
    ensures Strip(s) == s
  {
    assert s[0..|s|] == s && s[..0] == [] && s[|s|..] == [];
    StripCharacterized(s, 0, s);
  }

  /** Stripping a string that one space precedes. */
  lemma {:induction false} StripAfterSpace(t: string)
    requires Trimmed(t)
    ensures Strip(" " + t) == t
  {
    var u := " " + t;
    assert u[1..1 + |t|] == t && u[..1] == " " && u[1 + |t|..] == [];
    assert IsSpace(u[..1][0]);
    StripCharacterized(u, 1, t);
  }

  /** `s.find(c)`, with `|s|` standing for "not found". */
  function Find(s: string, c: char): (i: nat)
    ensures i <= |s|
    ensures i < |s| ==> s[i] == c
    ensures forall j :: 0 <= j < i ==> s[j] != c
  {
    if |s| == 0 then 0 else if s[0] == c then 0 else 1 + Find(s[1..], c)
  }

  lemma {:induction false} FindAfter(a: string, c: char, b: string)
    requires c !in a
    ensures Find(a + [c] + b, c) == |a|
  {
    var s := a + [c] + b;
    var i := Find(s, c);
    assert s[|a|] == c;
  }

  /** `s.split(sep, maxsplit)` for a one-character separator: cut at the
      first `maxsplit` separators, left to right; the last part keeps the
      rest of the string, separators included. */
  function Split(s: string, sep: char, maxsplit: nat): (parts: seq<string>)
    ensures 1 <= |parts| <= maxsplit + 1
    ensures forall k :: 0 <= k < |parts| - 1 ==> sep !in parts[k]
    ensures |parts| < maxsplit + 1 ==> sep !in parts[|parts| - 1]
    decreases |s|
  {
    var i := Find(s, sep);
    if maxsplit == 0 || i == |s| then
      assert i == |s| ==> sep !in s;
      [s]
    else
      [s[..i]] + Split(s[i + 1..], sep, maxsplit - 1)
  }

  /** `sep.join(parts)` */
  function Join(sep: string, parts: seq<string>): string
  {
    if |parts| == 0 then ""
    else if |parts| == 1 then parts[0]
    else parts[0] + sep + Join(sep, parts[1..])
  }

  /** Splitting loses nothing: joining the parts with the separator gives
      back the string. */
  lemma {:induction false} SplitJoin(s: string, sep: char, maxsplit: nat)
    ensures Join([sep], Split(s, sep, maxsplit)) == s
    decreases |s|
  {
    var i := Find(s, sep);
    if maxsplit > 0 && i < |s| {
      var a, b := s[..i], s[i + 1..];
      assert sep !in a by {
        forall k | 0 <= k < |a| ensures a[k] != sep { assert a[k] == s[k]; }
      }
      assert s == a + [sep] + b by { assert s[..i] + [s[i]] + s[i + 1..] == s; }
      var n: nat := maxsplit - 1;
      SplitJoin(b, sep, n);
      SplitJoinStep(a, sep, b, n);
    } else {
      assert Split(s, sep, maxsplit) == [s];
    }
  }

  /** One cut of `SplitJoin`: a separator-free head, the separator, then a tail that round-trips. */
  lemma {:induction false} SplitJoinStep(a: string, sep: char, b: string, n: nat)
    requires sep !in a
    requires Join([sep], Split(b, sep, n)) == b
    ensures Join([sep], Split(a + [sep] + b, sep, n + 1)) == a + [sep] + b
  {
    var rest := Split(b, sep, n);
    SplitStep(a, sep, b, n);
    JoinCons([sep], a, rest);
  }

  /** The first part opens the joined text and the last part closes it. */
  lemma {:induction false} JoinEnds(sep: string, parts: seq<string>)
    requires |parts| > 0
    ensures StartsWith(Join(sep, parts), parts[0])
    ensures var last := parts[|parts| - 1]; var r := Join(sep, parts);
      |last| <= |r| && r[|r| - |last|..] == last
    decreases |parts|
  {
    if |parts| > 1 {
      var tail := parts[1..];
      var rest := Join(sep, tail);
      JoinEnds(sep, tail);
      assert tail[|tail| - 1] == parts[|parts| - 1];
      assert Join(sep, parts) == (parts[0] + sep) + rest;
    }
  }

  lemma {:induction false} JoinCons(sep: string, a: string, parts: seq<string>)
    requires |parts| > 0
    ensures Join(sep, [a] + parts) == a + sep + Join(sep, parts)
  {
    assert ([a] + parts)[1..] == parts;
  }

  /** The first cut of a split falls at the first separator. */
  lemma {:induction false} SplitStep(a: string, sep: char, b: string, n: nat)
    requires sep !in a
    ensures Split(a + [sep] + b, sep, n + 1) == [a] + Split(b, sep, n)
  {
    var s := a + [sep] + b;
    FindAfter(a, sep, b);
    assert s[..|a|] == a;
    assert s[|a| + 1..] == b;
  }

  /** Any list of parts that joins back to `s`, has no separator inside a
      cut-off part, and either used up all `maxsplit` cuts or has no
      separator left in its last part, is exactly `s.split(sep, maxsplit)`. */
  lemma {:induction false} SplitCharacterized(s: string, sep: char, maxsplit: nat, parts: seq<string>)
    requires 1 <= |parts| <= maxsplit + 1
    requires forall k :: 0 <= k < |parts| - 1 ==> sep !in parts[k]
    requires |parts| < maxsplit + 1 ==> sep !in parts[|parts| - 1]
    requires Join([sep], parts) == s
    ensures parts == Split(s, sep, maxsplit)
    decreases |parts|
  {
    if |parts| == 1 {
      assert s == parts[0];
      assert maxsplit > 0 ==> Find(s, sep) == |s|;
    } else {
      var n: nat := maxsplit - 1;
      var a, tail := parts[0], parts[1..];
      var rest := Join([sep], tail);
      assert parts == [a] + tail;
      assert s == a + [sep] + rest by { JoinCons([sep], a, tail); }
      assert sep !in a by { CutsTail(sep, n, parts); }
      assert Split(s, sep, maxsplit) == [a] + Split(rest, sep, n) by { SplitStep(a, sep, rest, n); }
      assert tail == Split(rest, sep, n) by {
        CutsTail(sep, n, parts);
        SplitCharacterized(rest, sep, n, tail);
      }
    }
  }

  /** Dropping the first part of a split leaves a split with one cut fewer. */
  lemma {:induction false} CutsTail(sep: char, n: nat, parts: seq<string>)
    requires 2 <= |parts| <= n + 2
    requires forall k :: 0 <= k < |parts| - 1 ==> sep !in parts[k]
    requires |parts| < n + 2 ==> sep !in parts[|parts| - 1]
    ensures sep !in parts[0]
    ensures var tail := parts[1..];
      && 1 <= |tail| <= n + 1
      && (forall k :: 0 <= k < |tail| - 1 ==> sep !in tail[k])
      && (|tail| < n + 1 ==> sep !in tail[|tail| - 1])
  {
    var tail := parts[1..];
    forall k | 0 <= k < |tail| - 1 ensures sep !in tail[k] {
      assert tail[k] == parts[k + 1];
    }
  }

  /** `sep + sep.join(parts)` for a non-empty `parts`: each part preceded by
      the separator. */
  function Prefixed(sep: string, parts: seq<string>): string
  {
    if |parts| == 0 then "" else sep + parts[0] + Prefixed(sep, parts[1..])
  }

  lemma {:induction false} JoinPrefixed(sep: string, parts: seq<string>)
    requires |parts| > 0
    ensures sep + Join(sep, parts) == Prefixed(sep, parts)
    decreases |parts|
  {
    if |parts| > 1 {
      JoinPrefixed(sep, parts[1..]);
    }
  }

  /** `s.replace(p, "")` for a non-empty `p`: scanning left to right, every
      occurrence of `p` that does not overlap an earlier removed one is
      dropped. */
  function RemoveAll(s: string, p: string): (r: string)
    requires |p| > 0
    ensures |r| <= |s|
    decreases |s|
  {
    if |s| < |p| then s
    else if s[..|p|] == p then RemoveAll(s[|p|..], p)
    else [s[0]] + RemoveAll(s[1..], p)
  }

  /** Removal changes the text exactly when the pattern occurs in it. */
  lemma {:induction false} RemoveAllUnchanged(s: string, p: string)
    requires |p| > 0
    ensures |RemoveAll(s, p)| == |s| <==> !Contains(s, p)
    ensures !Contains(s, p) ==> RemoveAll(s, p) == s
    decreases |s|
  {
    if |s| < |p| {
    } else if s[..|p|] == p {
      assert OccursAt(s, p, 0);
    } else {
      assert !OccursAt(s, p, 0);
      ContainsTail(s, p);
      RemoveAllUnchanged(s[1..], p);
    }
  }

  /** Putting a character that does not begin `p` in front of a string
      creates no occurrence of `p`. */
  lemma {:induction false} ContainsCons(c: char, t: string, p: string)
    requires |p| > 0 && p[0] != c && !Contains(t, p)
    ensures !Contains([c] + t, p)
  {
    var u := [c] + t;
    assert !OccursAt(u, p, 0) by { assert u[0] == c; }
    ContainsTail(u, p);
    assert u[1..] == t;
  }

  /** When `p` does not start at index 0, it occurs in `s` exactly when it
      occurs in `s[1..]`. */
  lemma {:induction false} ContainsTail(s: string, p: string)
    requires |s| > 0 && !OccursAt(s, p, 0)
    ensures Contains(s, p) <==> Contains(s[1..], p)
  {
    if Contains(s, p) {
      var i :| 0 <= i <= |s| - |p| && OccursAt(s, p, i);
      assert s[1..][i - 1..i - 1 + |p|] == s[i..i + |p|];
      assert OccursAt(s[1..], p, i - 1);
    }
    if Contains(s[1..], p) {
      var i :| 0 <= i <= |s[1..]| - |p| && OccursAt(s[1..], p, i);
      assert s[1..][i..i + |p|] == s[i + 1..i + 1 + |p|];
      assert OccursAt(s, p, i + 1);
    }
  }

  lemma {:induction false} RemoveAllHead(p: string, b: string)
    requires |p| > 0
    ensures RemoveAll(p + b, p) == RemoveAll(b, p)
  {
    var s := p + b;
    assert s[..|p|] == p;
    assert s[|p|..] == b;
  }

  lemma {:induction false} RemoveAllKeep(s: string, p: string)
    requires |p| > 0 && |s| >= |p| && !OccursAt(s, p, 0)
    ensures RemoveAll(s, p) == [s[0]] + RemoveAll(s[1..], p)
  {
    assert s[0..|p|] == s[..|p|];
  }

  lemma {:induction false} OccursShift(s: string, p: string, i: nat)
    requires |s| > 0
    ensures OccursAt(s[1..], p, i) == OccursAt(s, p, i + 1)
  {
    if i + |p| <= |s| - 1 {
      assert s[1..][i..i + |p|] == s[i + 1..i + 1 + |p|];
    }
  }

  /** No occurrence of `p` in `s` starts before index `n`. */
  predicate NoneBefore(s: string, p: string, n: int)
  {
    forall i :: 0 <= i < n ==> !OccursAt(s, p, i)
  }

  lemma {:induction false} OccursTail(s: string, p: string, m: nat)
    requires OccursAt(s, p, m + 1) && NoneBefore(s, p, m + 1)
    ensures OccursAt(s[1..], p, m) && NoneBefore(s[1..], p, m)
  {
    OccursShift(s, p, m);
    forall i | 0 <= i < m ensures !OccursAt(s[1..], p, i) {
      OccursShift(s, p, i);
    }
  }

  /** The first occurrence of `p`, wherever it starts, is removed, and the
      removal goes on after it. */
  lemma {:induction false} RemoveAllAt(s: string, p: string, n: nat)
    requires |p| > 0 && OccursAt(s, p, n) && NoneBefore(s, p, n)
    ensures RemoveAll(s, p) == s[..n] + RemoveAll(s[n + |p|..], p)
    decreases n
  {
    if n == 0 {
      assert s[..|p|] == s[0..|p|];
    } else {
      var m: nat := n - 1;
      var t := s[1..];
      var tail := RemoveAll(s[n + |p|..], p);
      assert RemoveAll(s, p) == [s[0]] + RemoveAll(t, p) by {
        assert !OccursAt(s, p, 0);
        RemoveAllKeep(s, p);
      }
      assert RemoveAll(t, p) == t[..m] + tail by {
        OccursTail(s, p, m);
        RemoveAllAt(t, p, m);
        assert t[m + |p|..] == s[n + |p|..];
      }
      assert s[..n] == [s[0]] + t[..m];
    }
  }
}
