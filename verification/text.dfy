/**
 The Python `str` operations the search script relies on, over `seq<char>`.

 Characters are Unicode scalar values, so `|s|` agrees with Python's `len`.
 Case mapping and `isalpha` are modelled on ASCII only; `strip` uses the
 complete list of code points for which Python's `str.isspace` holds.
 */
module Text {
  import opened Wrappers

  /** `s.startswith(p)` */
  predicate StartsWith(s: string, p: string) {
    |p| <= |s| && s[..|p|] == p
  }

  /** `p in s` on strings: `p` occurs in `s` at some position. */
  predicate Contains(s: string, p: string)
    decreases |s|
  {
    StartsWith(s, p) || (|s| > 0 && Contains(s[1..], p))
  }

  /** `p` occurs in `s` starting at position `j`. */
  predicate OccursAt(s: string, p: string, j: nat) {
    j + |p| <= |s| && s[j..j + |p|] == p
  }

  /** `Contains` holds exactly when there is a position where `p` occurs. */
  lemma {:induction false} ContainsIffOccurs(s: string, p: string)
    ensures Contains(s, p) <==> exists j: nat :: OccursAt(s, p, j)
    decreases |s|
  {
    assert StartsWith(s, p) <==> OccursAt(s, p, 0) by {
      if |p| <= |s| { assert s[0..|p|] == s[..|p|]; }
    }
    if |s| > 0 {
      ContainsIffOccurs(s[1..], p);
      forall j: nat
        ensures OccursAt(s[1..], p, j) <==> OccursAt(s, p, j + 1)
      {
        if j + |p| <= |s| - 1 {
          assert s[1..][j..j + |p|] == s[j + 1..j + 1 + |p|];
        }
      }
      if exists j: nat :: OccursAt(s, p, j) {
        var j: nat :| OccursAt(s, p, j);
        if j > 0 {
          assert OccursAt(s[1..], p, j - 1);
        }
      }
    } else {
      assert forall j: nat :: OccursAt(s, p, j) ==> j == 0;
    }
  }

  /** An occurrence at a known position makes `Contains` true. */
  lemma ContainsAt(s: string, p: string, i: nat)
    requires OccursAt(s, p, i)
    ensures Contains(s, p)
  {
    ContainsIffOccurs(s, p);
  }

  /** Conversely, `Contains` is witnessed by a position. */
  lemma ContainsWitness(s: string, p: string) returns (i: nat)
    requires Contains(s, p)
    ensures OccursAt(s, p, i)
  {
    ContainsIffOccurs(s, p);
    i :| OccursAt(s, p, i);
  }

  /** A one-character pattern occurs exactly when that character does. */
  lemma ContainsChar(s: string, c: char)
    ensures Contains(s, [c]) <==> c in s
  {
    if Contains(s, [c]) {
      var i := ContainsWitness(s, [c]);
      assert s[i] == s[i..i + 1][0];
    }
    if c in s {
      var i :| 0 <= i < |s| && s[i] == c;
      assert s[i..i + 1] == [c];
      ContainsAt(s, [c], i);
    }
  }

  /** Nothing non-empty occurs in the empty string. */
  lemma NothingInEmpty(p: string)
    requires |p| > 0
    ensures !Contains([], p)
  {
  }

  /** `s.find(p)` for a non-empty `p`: the position of the first occurrence, if any. */
  function Find(s: string, p: string): (r: Option<nat>)
    requires |p| > 0
    ensures r.Some? ==> OccursAt(s, p, r.value)
    ensures r.Some? ==> forall j: nat :: j < r.value ==> !OccursAt(s, p, j)
    ensures r.None? <==> !Contains(s, p)
    decreases |s|
  {
    if StartsWith(s, p) then Some(0)
    else if |s| == 0 then None
    else match Find(s[1..], p)
      case None => None
      case Some(k) =>
        assert forall j: nat :: 1 <= j <= k ==> (OccursAt(s, p, j) <==> OccursAt(s[1..], p, j - 1)) by {
          forall j: nat | 1 <= j <= k
            ensures OccursAt(s, p, j) <==> OccursAt(s[1..], p, j - 1)
          {
            if j + |p| <= |s| {
              assert s[j..j + |p|] == s[1..][j - 1..j - 1 + |p|];
            }
          }
        }
        assert OccursAt(s[1..], p, k) ==> OccursAt(s, p, k + 1) by {
          if k + |p| <= |s| - 1 { assert s[1..][k..k + |p|] == s[k + 1..k + 1 + |p|]; }
        }
        assert !OccursAt(s, p, 0) by {
          if |p| <= |s| { assert s[0..|p|] == s[..|p|]; }
        }
        Some(k + 1)
  }

  /** A text that does not contain a character: its first occurrence after it is found. */
  lemma {:induction false} FindAfter(a: string, c: char, b: string)
    requires c !in a
    ensures Find(a + [c] + b, [c]) == Some(|a|)
    decreases |a|
  {
    if a == [] {
      assert (a + [c] + b)[..1] == [c];
    } else {
      var s := a + [c] + b;
      assert s[0] == a[0] != c;
      assert !StartsWith(s, [c]);
      assert s[1..] == a[1..] + [c] + b;
      FindAfter(a[1..], c, b);
    }
  }

  /**
   `s.replace(pat, rep)` for a non-empty `pat`: occurrences are replaced left
   to right without overlapping, and text without `pat` is returned unchanged.
   */
  function Replace(s: string, pat: string, rep: string): (r: string)
    requires |pat| > 0
    ensures !Contains(s, pat) ==> r == s
    decreases |s|
  {
    if StartsWith(s, pat) then rep + Replace(s[|pat|..], pat, rep)
    else if |s| == 0 then []
    else [s[0]] + Replace(s[1..], pat, rep)
  }

  /** Past a text that does not start with the pattern, its first character is kept. */
  lemma ReplaceStep(s: string, pat: string, rep: string)
    requires |pat| > 0 && 0 < |s| && !StartsWith(s, pat)
    ensures Replace(s, pat, rep) == [s[0]] + Replace(s[1..], pat, rep)
  {
  }

  /** Putting back the first character of `s` in front of a text that starts with `s[1..k]`. */
  lemma ConsPrefix(s: string, k: nat, x: string, rep: string, tail: string)
    requires 0 < k <= |s| && x == s[1..k] + rep + tail
    ensures [s[0]] + x == s[..k] + rep + tail
  {
    assert [s[0]] + s[1..k] == s[..k];
    assert [s[0]] + (s[1..k] + rep + tail) == ([s[0]] + s[1..k]) + rep + tail;
  }

  /** A text that starts with the pattern: the replacement comes first. */
  lemma ReplaceAtStart(s: string, pat: string, rep: string)
    requires |pat| > 0 && StartsWith(s, pat)
    ensures Replace(s, pat, rep) == rep + Replace(s[|pat|..], pat, rep)
  {
  }

  /** `p` occurs at `k` and at no earlier position of `s`. */
  predicate FirstAt(s: string, p: string, k: nat) {
    OccursAt(s, p, k) && forall j: nat :: j < k ==> !OccursAt(s, p, j)
  }

  /** Dropping the first character moves the first occurrence one position down. */
  lemma FirstAtShift(s: string, p: string, k: nat)
    requires |p| > 0 && FirstAt(s, p, k) && 0 < k
    ensures 0 < |s| && !StartsWith(s, p) && FirstAt(s[1..], p, k - 1)
  {
    assert OccursAt(s, p, k) && !OccursAt(s, p, 0);
    assert s[..|p|] == s[0..|p|];
    assert s[1..][k - 1..k - 1 + |p|] == s[k..k + |p|];
    forall j: nat | j < k - 1
      ensures !OccursAt(s[1..], p, j)
    {
      assert !OccursAt(s, p, j + 1);
      if j + |p| <= |s[1..]| {
        assert s[1..][j..j + |p|] == s[j + 1..j + 1 + |p|];
      }
    }
  }

  /** `ReplaceFirst`, by induction on the position of the first occurrence. */
  lemma {:induction false} ReplaceFirstAt(s: string, pat: string, rep: string, k: nat)
    requires |pat| > 0 && FirstAt(s, pat, k)
    ensures Replace(s, pat, rep) == s[..k] + rep + Replace(s[k + |pat|..], pat, rep)
    decreases k
  {
    if k == 0 {
      assert s[..|pat|] == s[0..|pat|];
      ReplaceAtStart(s, pat, rep);
      assert s[..0] + rep == rep;
    } else {
      FirstAtShift(s, pat, k);
      var t := s[1..];
      var tail := Replace(s[k + |pat|..], pat, rep);
      assert Replace(t, pat, rep) == s[1..k] + rep + tail by {
        ReplaceFirstAt(t, pat, rep, k - 1);
        assert t[..k - 1] == s[1..k];
        assert t[k - 1 + |pat|..] == s[k + |pat|..];
      }
      ReplaceStep(s, pat, rep);
      ConsPrefix(s, k, Replace(t, pat, rep), rep, tail);
    }
  }

  /**
   The first occurrence of the pattern is replaced, and replacing goes on in
   the text after it; the text before it is kept.
   */
  lemma ReplaceFirst(s: string, pat: string, rep: string, k: nat)
    requires |pat| > 0 && Find(s, pat) == Some(k)
    ensures Replace(s, pat, rep) == s[..k] + rep + Replace(s[k + |pat|..], pat, rep)
  {
    ReplaceFirstAt(s, pat, rep, k);
  }

  /** A text that lacks a prefix of `p` lacks `p`. */
  lemma ContainsPrefix(s: string, p: string, q: string)
    requires |q| <= |p| && p[..|q|] == q && !Contains(s, q)
    ensures !Contains(s, p)
  {
    if Contains(s, p) {
      var j := ContainsWitness(s, p);
      assert s[j..j + |q|] == s[j..j + |p|][..|q|];
      ContainsAt(s, q, j);
    }
  }

  /** What occurs in a suffix occurs in the whole text. */
  lemma ContainsSuffix(s: string, i: nat, p: string)
    requires i <= |s| && Contains(s[i..], p)
    ensures Contains(s, p)
  {
    var j := ContainsWitness(s[i..], p);
    assert s[i..][j..j + |p|] == s[i + j..i + j + |p|];
    ContainsAt(s, p, i + j);
  }

  /** Replacing a character by text free of it leaves no trace of that character. */
  lemma {:induction false} ReplaceRemovesChar(s: string, c: char, rep: string)
    requires c !in rep
    ensures c !in Replace(s, [c], rep)
    decreases |s|
  {
    if s != [] {
      ReplaceRemovesChar(s[|if StartsWith(s, [c]) then [c] else [s[0]]|..], c, rep);
    }
  }

  /** Replacing a character by text free of `d` adds no `d` that was not there. */
  lemma {:induction false} ReplaceKeepsAbsentChar(s: string, c: char, rep: string, d: char)
    requires d !in s && d !in rep
    ensures d !in Replace(s, [c], rep)
    decreases |s|
  {
    if s != [] {
      ReplaceKeepsAbsentChar(s[1..], c, rep, d);
    }
  }

  function LowerChar(c: char): char {
    if 'A' <= c <= 'Z' then (c as int + 32) as char else c
  }

  function UpperChar(c: char): char {
    if 'a' <= c <= 'z' then (c as int - 32) as char else c
  }

  /** `s.lower()` on ASCII letters; every other character is kept. */
  function Lower(s: string): (r: string)
    ensures |r| == |s|
  {
    seq(|s|, i requires 0 <= i < |s| => LowerChar(s[i]))
  }

  /** `s.upper()` on ASCII letters; every other character is kept. */
  function Upper(s: string): (r: string)
    ensures |r| == |s|
  {
    seq(|s|, i requires 0 <= i < |s| => UpperChar(s[i]))
  }

  /** Lower-casing leaves no upper-case ASCII letter and moves no character that is not a letter. */
  lemma LowerShape(s: string)
    ensures forall i :: 0 <= i < |s| ==> !('A' <= Lower(s)[i] <= 'Z')
    ensures forall c :: !IsAlpha(c) ==> (c in Lower(s) <==> c in s)
  {
    var r := Lower(s);
    forall c | !IsAlpha(c)
      ensures c in r <==> c in s
    {
      if c in r {
        var i :| 0 <= i < |r| && r[i] == c;
        assert s[i] == c;
      }
      if c in s {
        var i :| 0 <= i < |s| && s[i] == c;
        assert r[i] == c;
      }
    }
  }

  /** Python's `str.isspace` for one character (the whitespace `strip()` removes). */
  predicate IsSpace(c: char) {
    || 0x09 <= c as int <= 0x0D
    || 0x1C <= c as int <= 0x20
    || c as int == 0x85 || c as int == 0xA0 || c as int == 0x1680
    || 0x2000 <= c as int <= 0x200A
    || c as int == 0x2028 || c as int == 0x2029 || c as int == 0x202F
    || c as int == 0x205F || c as int == 0x3000
  }

  /** `s.lstrip()` */
  function StripStart(s: string): (r: string)
    ensures |r| <= |s| && r == s[|s| - |r|..]
    ensures r == [] || !IsSpace(r[0])
    ensures forall i :: 0 <= i < |s| - |r| ==> IsSpace(s[i])
    decreases |s|
  {
    if |s| > 0 && IsSpace(s[0]) then StripStart(s[1..]) else s
  }

  /** `s.rstrip()` */
  function StripEnd(s: string): (r: string)
    ensures |r| <= |s| && r == s[..|r|]
    ensures r == [] || !IsSpace(r[|r| - 1])
    ensures forall i :: |r| <= i < |s| ==> IsSpace(s[i])
    decreases |s|
  {
    if |s| > 0 && IsSpace(s[|s| - 1]) then StripEnd(s[..|s| - 1]) else s
  }

  /**
   `s.strip()`: the longest infix that neither starts nor ends with whitespace;
   it is empty exactly when `s` is all whitespace.
   */
  function Strip(s: string): (r: string)
    ensures |r| <= |s|
    ensures r == [] || (!IsSpace(r[0]) && !IsSpace(r[|r| - 1]))
    ensures r == [] <==> forall i :: 0 <= i < |s| ==> IsSpace(s[i])
    ensures (s == [] || (!IsSpace(s[0]) && !IsSpace(s[|s| - 1]))) ==> r == s
  {
    var t := StripStart(s);
    var r := StripEnd(t);
    assert forall i :: |s| - |t| <= i < |s| ==> s[i] == t[i - (|s| - |t|)];
    r
  }

  /** `s[i..j]` is what is left of `s` after cutting a run of whitespace from each end. */
  predicate TrimmedTo(s: string, i: int, j: int) {
    && 0 <= i <= j <= |s|
    && (forall k :: 0 <= k < i ==> IsSpace(s[k]))
    && (forall k :: j <= k < |s| ==> IsSpace(s[k]))
  }

  /**
   What `strip()` removes: the result is the infix of `s` left after cutting a
   run of whitespace from each end.
   */
  lemma StripSpec(s: string)
    ensures exists i, j :: TrimmedTo(s, i, j) && Strip(s) == s[i..j]
  {
    var t := StripStart(s);
    var r := StripEnd(t);
    var i := |s| - |t|;
    assert Strip(s) == r;
    assert r == s[i..i + |r|] by {
      assert t == s[i..] && r == t[..|r|];
    }
    assert TrimmedTo(s, i, i + |r|) by {
      forall k | i + |r| <= k < |s|
        ensures IsSpace(s[k])
      {
        assert s[k] == t[k - i];
      }
    }
  }

  /** `c.isalpha()` on ASCII. */
  predicate IsAlpha(c: char) {
    'A' <= c <= 'Z' || 'a' <= c <= 'z'
  }

  /** `any(char.isalpha() for char in s)` */
  predicate HasLetter(s: string) {
    exists i :: 0 <= i < |s| && IsAlpha(s[i])
  }

  /**
   `s.split(sep)` for a non-empty separator (Python rejects an empty one):
   there is always at least one piece, and no piece contains the separator.
   */
  function Split(s: string, sep: string): (parts: seq<string>)
    requires |sep| > 0
    ensures |parts| >= 1
    ensures forall i :: 0 <= i < |parts| ==> !Contains(parts[i], sep)
    decreases |s|
  {
    match Find(s, sep)
      case None => [s]
      case Some(k) =>
        FirstPieceFree(s, sep, k);
        [s[..k]] + Split(s[k + |sep|..], sep)
  }

  /** One step of `Split`: the pieces up to the first occurrence of `sep`, and the split of the rest. */
  lemma SplitFirst(s: string, sep: string)
    requires |sep| > 0
    ensures Find(s, sep).None? ==> Split(s, sep) == [s]
    ensures Find(s, sep).Some? ==> var k := Find(s, sep).value;
      Split(s, sep) == [s[..k]] + Split(s[k + |sep|..], sep)
  {
  }

  /**
   The split is taken at the leftmost occurrence, overlapping ones included:
   the first piece is a prefix of the text at none of whose positions the
   separator starts; there is one piece exactly when the separator does not
   occur, and otherwise the separator follows the first piece and the other
   pieces are the split of the text after it.
   */
  lemma SplitLeftmost(s: string, sep: string)
    requires |sep| > 0
    ensures var parts := Split(s, sep); var n := |parts[0]|;
      && n <= |s| && parts[0] == s[..n]
      && (forall j: nat :: j < n ==> !OccursAt(s, sep, j))
      && (|parts| == 1 <==> !Contains(s, sep))
      && (|parts| > 1 ==> OccursAt(s, sep, n) && parts[1..] == Split(s[n + |sep|..], sep))
  {
    var parts := Split(s, sep);
    SplitFirst(s, sep);
    if Find(s, sep).None? {
      assert parts == [s];
      assert s[..|s|] == s;
      ContainsIffOccurs(s, sep);
    } else {
      var k := Find(s, sep).value;
      HeadAndTail(parts, s[..k], Split(s[k + |sep|..], sep));
      assert |parts[0]| == k;
    }
  }

  /** A sequence built from a head and a tail gives them back. */
  lemma HeadAndTail<T>(xs: seq<T>, x: T, rest: seq<T>)
    requires xs == [x] + rest
    ensures xs[0] == x && xs[1..] == rest && |xs| == |rest| + 1
  {
  }

  /** The text before the first occurrence of `sep` does not contain `sep`. */
  lemma FirstPieceFree(s: string, sep: string, k: nat)
    requires |sep| > 0 && k <= |s|
    requires forall j: nat :: j < k ==> !OccursAt(s, sep, j)
    ensures !Contains(s[..k], sep)
  {
    var t := s[..k];
    forall j: nat | OccursAt(t, sep, j)
      ensures OccursAt(s, sep, j)
    {
      assert t[j..j + |sep|] == s[j..j + |sep|];
    }
    ContainsIffOccurs(t, sep);
  }

  /** `sep.join(parts)` */
  function Join(parts: seq<string>, sep: string): string
    decreases |parts|
  {
    if |parts| == 0 then []
    else if |parts| == 1 then parts[0]
    else parts[0] + sep + Join(parts[1..], sep)
  }

  /** Joining the pieces of a split with the same separator gives the text back. */
  lemma {:induction false} JoinSplit(s: string, sep: string)
    requires |sep| > 0
    ensures Join(Split(s, sep), sep) == s
    decreases |s|
  {
    match Find(s, sep)
      case None =>
        assert Split(s, sep) == [s];
      case Some(k) =>
        var rest := s[k + |sep|..];
        var tail := Split(rest, sep);
        assert Split(s, sep) == [s[..k]] + tail;
        JoinSplit(rest, sep);
        assert Join([s[..k]] + tail, sep) == s[..k] + sep + Join(tail, sep) by {
          assert ([s[..k]] + tail)[1..] == tail;
        }
        assert s == s[..k] + sep + rest;
  }

  /**
   Splitting a join on a one-character separator that no piece contains gives
   the pieces back.
   */
  lemma {:induction false} SplitJoin(parts: seq<string>, c: char)
    requires |parts| >= 1
    requires forall i :: 0 <= i < |parts| ==> c !in parts[i]
    ensures Split(Join(parts, [c]), [c]) == parts
    decreases |parts|
  {
    if |parts| == 1 {
      ContainsChar(parts[0], c);
    } else {
      var tail := Join(parts[1..], [c]);
      FindAfter(parts[0], c, tail);
      assert parts[0] + [c] + tail == Join(parts, [c]);
      assert (parts[0] + [c] + tail)[..|parts[0]|] == parts[0];
      assert (parts[0] + [c] + tail)[|parts[0]| + 1..] == tail;
      SplitJoin(parts[1..], c);
    }
  }
}
