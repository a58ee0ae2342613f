/**
 * The Python `str` and `os.path` built-ins the supervision scripts rely on, modelled on
 * `string` (a sequence of Unicode scalar values, like Python's `str`).
 */
module PyStr {
  import opened Wrappers

  // ---------------------------------------------------------------------------------
  // Substrings: `p in s`
  // ---------------------------------------------------------------------------------

  /** `p` is a prefix of `s`. */
  predicate IsPrefix(p: string, s: string) {
    |p| <= |s| && s[..|p|] == p
  }

  /** `sub` occurs in `s` at index `i`. */
  predicate OccursAt(s: string, sub: string, i: int) {
    0 <= i && i + |sub| <= |s| && s[i..i + |sub|] == sub
  }

  /** Python's `p in s` for strings: `p` occurs in `s` at some position. */
  predicate Contains(s: string, p: string) {
    exists i | 0 <= i <= |s| :: OccursAt(s, p, i)
  }

  /** `p in s` holds when `s` starts with `p` or `p in s[1:]`, and only then. */
  lemma ContainsUnfold(s: string, p: string)
    ensures Contains(s, p) <==> IsPrefix(p, s) || (s != [] && Contains(s[1..], p))
  {
    if Contains(s, p) {
      var i :| 0 <= i <= |s| && OccursAt(s, p, i);
      if i > 0 {
        assert s[1..][i - 1..i - 1 + |p|] == s[i..i + |p|];
        assert OccursAt(s[1..], p, i - 1);
      }
    }
    if IsPrefix(p, s) {
      assert OccursAt(s, p, 0);
    }
    if s != [] && Contains(s[1..], p) {
      var i :| 0 <= i <= |s[1..]| && OccursAt(s[1..], p, i);
      assert s[1..][i..i + |p|] == s[i + 1..i + 1 + |p|];
      assert OccursAt(s, p, i + 1);
    }
  }

  /** An occurrence in a suffix of `s` is an occurrence in `s`. */
  lemma ContainsInSuffix(s: string, k: nat, p: string)
    requires k <= |s|
    ensures Contains(s[k..], p) ==> Contains(s, p)
  {
    if Contains(s[k..], p) {
      var i :| 0 <= i <= |s[k..]| && OccursAt(s[k..], p, i);
      assert s[k..][i..i + |p|] == s[k + i..k + i + |p|];
      assert OccursAt(s, p, k + i);
    }
  }

  /** An occurrence in `a` is an occurrence in `a + b`. */
  lemma ContainsInPrefix(a: string, b: string, p: string)
    ensures Contains(a, p) ==> Contains(a + b, p)
  {
    if Contains(a, p) {
      var i :| 0 <= i <= |a| && OccursAt(a, p, i);
      assert (a + b)[i..i + |p|] == a[i..i + |p|];
      assert OccursAt(a + b, p, i);
    }
  }

  /** An occurrence in `b` is an occurrence in `a + b`. */
  lemma ContainsInConcat(a: string, b: string, p: string)
    ensures Contains(b, p) ==> Contains(a + b, p)
  {
    assert (a + b)[|a|..] == b;
    ContainsInSuffix(a + b, |a|, p);
  }

  /** No occurrence of `p` can start inside a prefix `a` that lacks `p`'s first character. */
  lemma {:induction false} ContainsSkip(a: string, b: string, p: string)
    requires p != []
    requires forall i :: 0 <= i < |a| ==> a[i] != p[0]
    ensures Contains(a + b, p) ==> Contains(b, p)
    decreases |a|
  {
    if a == [] {
      assert a + b == b;
    } else {
      ContainsUnfold(a + b, p);
      assert (a + b)[1..] == a[1..] + b;
      ContainsSkip(a[1..], b, p);
    }
  }

  /** `p` is a prefix of `[c] + rest` exactly when it starts with `c` and continues as a prefix of `rest`. */
  lemma PrefixOfCons(p: string, c: char, rest: string)
    requires p != []
    ensures IsPrefix(p, [c] + rest) <==> p[0] == c && IsPrefix(p[1..], rest)
  {
    var s := [c] + rest;
    assert s[1..] == rest;
    if |p| <= |s| {
      assert s[..|p|] == [c] + rest[..|p| - 1];
      assert p == [p[0]] + p[1..];
    }
  }

  /** A prefix of `a + b` that does not end within `a` reaches the first character of `b`. */
  lemma PrefixOfConcat(p: string, a: string, b: string)
    ensures IsPrefix(p, a + b) && |p| > |a| ==> b != [] && p[|a|] == b[0]
    ensures IsPrefix(p, a + b) && |p| <= |a| ==> IsPrefix(p, a)
  {
    var s := a + b;
    if IsPrefix(p, s) && |p| > |a| {
      assert p[|a|] == s[|a|];
    }
    if IsPrefix(p, s) && |p| <= |a| {
      assert s[..|p|] == a[..|p|];
    }
  }

  /**
   * An occurrence of `p` in `a + m + b` lies within `a` or within `b` when no
   * character of the non-empty middle `m` appears in `p`.
   */
  lemma {:induction false} ContainsAcross(a: string, m: string, b: string, p: string)
    requires p != [] && m != []
    requires forall i :: 0 <= i < |m| ==> m[i] !in p
    ensures Contains(a + m + b, p) ==> Contains(a, p) || Contains(b, p)
    decreases |a|
  {
    var s := a + m + b;
    assert p[0] in p;
    if a == [] {
      assert s == m + b;
      ContainsSkip(m, b, p);
    } else {
      ContainsUnfold(s, p);
      ContainsUnfold(a, p);
      PrefixOfConcat(p, a, m + b);
      assert s == a + (m + b);
      assert s[1..] == a[1..] + m + b;
      ContainsAcross(a[1..], m, b, p);
    }
  }

  // ---------------------------------------------------------------------------------
  // `s.replace(pat, rep)`
  // ---------------------------------------------------------------------------------

  /** Python's `s.replace(pat, rep)`: leftmost non-overlapping occurrences, left to right. */
  function ReplaceAll(s: string, pat: string, rep: string): string
    requires pat != []
    decreases |s|
  {
    if s == [] then []
    else if IsPrefix(pat, s) then rep + ReplaceAll(s[|pat|..], pat, rep)
    else [s[0]] + ReplaceAll(s[1..], pat, rep)
  }

  /** Python's `s.upper()` on ASCII: `a`-`z` become `A`-`Z`, every other character is kept. */
  function Upper(s: string): string {
    seq(|s|, i requires 0 <= i < |s| => if 'a' <= s[i] <= 'z' then (s[i] as int - 32) as char else s[i])
  }

  /** A replacement by a string of the same length keeps the length. */
  lemma {:induction false} ReplaceAllLength(s: string, pat: string, rep: string)
    requires pat != [] && |rep| == |pat|
    ensures |ReplaceAll(s, pat, rep)| == |s|
    decreases |s|
  {
    if s == [] {
    } else if IsPrefix(pat, s) {
      ReplaceAllLength(s[|pat|..], pat, rep);
    } else {
      ReplaceAllLength(s[1..], pat, rep);
    }
  }

  /** Without an occurrence of `pat`, the replacement changes nothing. */
  lemma {:induction false} ReplaceAllAbsent(s: string, pat: string, rep: string)
    requires pat != [] && !Contains(s, pat)
    ensures ReplaceAll(s, pat, rep) == s
    decreases |s|
  {
    if s != [] {
      ContainsUnfold(s, pat);
      ReplaceAllAbsent(s[1..], pat, rep);
      assert s == [s[0]] + s[1..];
    }
  }

  /** The first character of a replacement result. */
  lemma ReplaceAllStart(s: string, pat: string, rep: string)
    requires pat != [] && rep != [] && s != []
    ensures ReplaceAll(s, pat, rep) != []
    ensures ReplaceAll(s, pat, rep)[0] == if IsPrefix(pat, s) then rep[0] else s[0]
  {
  }

  /** A prefix `t` of the result that avoids `rep[0]` was copied from the input. */
  lemma {:induction false} ReplacedPrefix(s: string, pat: string, rep: string, t: string)
    requires pat != [] && rep != [] && rep[0] !in t
    ensures IsPrefix(t, ReplaceAll(s, pat, rep)) ==> IsPrefix(t, s)
    decreases |t|
  {
    var r := ReplaceAll(s, pat, rep);
    if t != [] && IsPrefix(t, r) {
      assert s != [];
      ReplaceAllStart(s, pat, rep);
      assert r[0] == t[0] && t[0] in t;
      assert !IsPrefix(pat, s);
      var rest := ReplaceAll(s[1..], pat, rep);
      assert r == [s[0]] + rest;
      PrefixOfCons(t, s[0], rest);
      ReplacedPrefix(s[1..], pat, rep, t[1..]);
      PrefixOfCons(t, s[0], s[1..]);
      assert s == [s[0]] + s[1..];
    }
  }

  /**
   * The replacement leaves no occurrence of `pat` behind, provided `rep` has the length
   * of `pat`, differs from it, and neither can start inside the other.
   */
  lemma {:induction false} ReplaceAllRemoves(s: string, pat: string, rep: string)
    requires pat != [] && |rep| == |pat| && rep != pat
    requires pat[0] !in rep[1..] && rep[0] !in pat[1..]
    ensures !Contains(ReplaceAll(s, pat, rep), pat)
    decreases |s|
  {
    var r := ReplaceAll(s, pat, rep);
    ContainsUnfold(r, pat);
    if s == [] {
      assert r == [];
    } else if IsPrefix(pat, s) {
      var rest := ReplaceAll(s[|pat|..], pat, rep);
      ReplaceAllRemoves(s[|pat|..], pat, rep);
      assert r == rep + rest;
      assert r[..|pat|] == rep;
      assert r[1..] == rep[1..] + rest;
      ContainsSkip(rep[1..], rest, pat);
    } else {
      var rest := ReplaceAll(s[1..], pat, rep);
      ReplaceAllRemoves(s[1..], pat, rep);
      assert r == [s[0]] + rest;
      ReplacedPrefix(s[1..], pat, rep, pat[1..]);
      PrefixOfCons(pat, s[0], rest);
      PrefixOfCons(pat, s[0], s[1..]);
      assert s == [s[0]] + s[1..];
      assert r[1..] == rest;
    }
  }

  /** Under the conditions of ReplaceAllRemoves, replacing twice is replacing once. */
  lemma ReplaceAllIdempotent(s: string, pat: string, rep: string)
    requires pat != [] && |rep| == |pat| && rep != pat
    requires pat[0] !in rep[1..] && rep[0] !in pat[1..]
    ensures ReplaceAll(ReplaceAll(s, pat, rep), pat, rep) == ReplaceAll(s, pat, rep)
  {
    ReplaceAllRemoves(s, pat, rep);
    ReplaceAllAbsent(ReplaceAll(s, pat, rep), pat, rep);
  }

  /** A replacement whose characters are all absent from `t` creates no occurrence of `t`. */
  lemma {:induction false} ReplaceAllIntroducesNothing(s: string, pat: string, rep: string, t: string)
    requires pat != [] && rep != [] && t != []
    requires forall i :: 0 <= i < |rep| ==> rep[i] !in t
    ensures Contains(ReplaceAll(s, pat, rep), t) ==> Contains(s, t)
    decreases |s|
  {
    var r := ReplaceAll(s, pat, rep);
    ContainsUnfold(r, t);
    ContainsUnfold(s, t);
    if s == [] {
      assert r == [];
    } else if IsPrefix(pat, s) {
      var rest := ReplaceAll(s[|pat|..], pat, rep);
      assert r == rep + rest;
      ContainsSkip(rep, rest, t);
      ReplaceAllIntroducesNothing(s[|pat|..], pat, rep, t);
      ContainsInSuffix(s, |pat|, t);
    } else {
      var rest := ReplaceAll(s[1..], pat, rep);
      assert r == [s[0]] + rest;
      assert r[1..] == rest;
      ReplacedPrefix(s, pat, rep, t);
      ReplaceAllIntroducesNothing(s[1..], pat, rep, t);
      ContainsInSuffix(s, 1, t);
    }
  }

  // ---------------------------------------------------------------------------------
  // Whitespace: `str.isspace`, `strip()`, `split()` and `" ".join(...)`
  // ---------------------------------------------------------------------------------

  /** Python's `c.isspace()`. */
  predicate IsSpace(c: char) {
    c == ' ' || c == '\t' || c == '\n' || c == '\r' || c == '\U{000B}' || c == '\U{000C}'
    || ('\U{001C}' <= c <= '\U{001F}') || c == '\U{0085}' || c == '\U{00A0}' || c == '\U{1680}'
    || ('\U{2000}' <= c <= '\U{200A}') || c == '\U{2028}' || c == '\U{2029}' || c == '\U{202F}'
    || c == '\U{205F}' || c == '\U{3000}'
  }

  /** No leading and no trailing whitespace. */
  predicate IsStripped(s: string) {
    s == [] || (!IsSpace(s[0]) && !IsSpace(s[|s| - 1]))
  }

  /** Python's `s.lstrip()`. */
  function StripLeft(s: string): (r: string)
    ensures r == [] || !IsSpace(r[0])
    decreases |s|
  {
    if s != [] && IsSpace(s[0]) then StripLeft(s[1..]) else s
  }

  /** Python's `s.rstrip()`. */
  function StripRight(s: string): (r: string)
    ensures IsPrefix(r, s)
    ensures r == [] || !IsSpace(r[|r| - 1])
    decreases |s|
  {
    if s != [] && IsSpace(s[|s| - 1]) then StripRight(s[..|s| - 1]) else s
  }

  /** Python's `s.strip()`. */
  function Strip(s: string): (r: string)
    ensures IsStripped(r)
  {
    StripRight(StripLeft(s))
  }

  /**
   * `s.strip()` is the slice `s[i..j]` with only whitespace before and after it; as it
   * neither starts nor ends with whitespace, this pins it down.
   */
  lemma {:induction false} StripIsSlice(s: string) returns (i: nat, j: nat)
    ensures IsStripped(Strip(s))
    ensures i <= j <= |s| && Strip(s) == s[i..j]
    ensures forall k :: 0 <= k < i ==> IsSpace(s[k])
    ensures forall k :: j <= k < |s| ==> IsSpace(s[k])
  {
    var left := StripLeft(s);
    assert |left| <= |s| && left == s[|s| - |left|..] by {
      StripLeftDrops(s);
    }
    i := |s| - |left|;
    assert forall k :: 0 <= k < i ==> IsSpace(s[k]) by {
      StripLeftDrops(s);
    }
    var r := StripRight(left);
    j := i + |r|;
    assert Strip(s) == r == s[i..j] by {
      assert r == left[..|r|];
    }
    assert forall k :: j <= k < |s| ==> IsSpace(s[k]) by {
      StripRightDrops(left);
      forall k | j <= k < |s| ensures IsSpace(s[k]) {
        assert s[k] == left[k - i];
      }
    }
  }

  /** `s.lstrip()` is the suffix of `s` left once its leading whitespace is dropped. */
  lemma {:induction false} StripLeftDrops(s: string)
    ensures var r := StripLeft(s);
      |r| <= |s| && r == s[|s| - |r|..] && forall i :: 0 <= i < |s| - |r| ==> IsSpace(s[i])
    decreases |s|
  {
    if s != [] && IsSpace(s[0]) {
      StripLeftDrops(s[1..]);
    }
  }

  /** `s.rstrip()` is the prefix of `s` left once its trailing whitespace is dropped. */
  lemma {:induction false} StripRightDrops(s: string)
    ensures var r := StripRight(s);
      forall i :: |r| <= i < |s| ==> IsSpace(s[i])
    decreases |s|
  {
    if s != [] && IsSpace(s[|s| - 1]) {
      StripRightDrops(s[..|s| - 1]);
    }
  }

  /** The length of the leading run of elements that are not separators. */
  function RunLength<T>(s: seq<T>, isSep: T -> bool): (k: nat)
    ensures k <= |s|
    ensures forall i :: 0 <= i < k ==> !isSep(s[i])
    ensures k < |s| ==> isSep(s[k])
    decreases |s|
  {
    if s == [] || isSep(s[0]) then 0 else 1 + RunLength(s[1..], isSep)
  }

  /**
   * Python's `str.split()` with no argument, over any element type: the maximal runs
   * of non-separator elements, in order.
   */
  function SplitRuns<T>(s: seq<T>, isSep: T -> bool): (r: seq<seq<T>>)
    ensures forall w :: w in r ==> w != [] && forall i :: 0 <= i < |w| ==> !isSep(w[i])
    decreases |s|
  {
    if s == [] then []
    else if isSep(s[0]) then SplitRuns(s[1..], isSep)
    else
      var k := RunLength(s, isSep);
      [s[..k]] + SplitRuns(s[k..], isSep)
  }

  /** Leading separators do not change the split. */
  lemma {:induction false} SplitRunsSkipsSeparators<T>(a: seq<T>, b: seq<T>, isSep: T -> bool)
    requires forall i :: 0 <= i < |a| ==> isSep(a[i])
    ensures SplitRuns(a + b, isSep) == SplitRuns(b, isSep)
    decreases |a|
  {
    if a == [] {
      assert a + b == b;
    } else {
      assert (a + b)[1..] == a[1..] + b;
      SplitRunsSkipsSeparators(a[1..], b, isSep);
    }
  }

  /** A run without separators followed by a separator (or by nothing) splits off whole. */
  lemma SplitRunsWord<T>(w: seq<T>, b: seq<T>, isSep: T -> bool)
    requires w != [] && forall i :: 0 <= i < |w| ==> !isSep(w[i])
    requires b == [] || isSep(b[0])
    ensures SplitRuns(w + b, isSep) == [w] + SplitRuns(b, isSep)
  {
    RunLengthOfWord(w, b, isSep);
    var s := w + b;
    assert s[..|w|] == w;
    assert s[|w|..] == b;
  }

  lemma {:induction false} RunLengthOfWord<T>(w: seq<T>, b: seq<T>, isSep: T -> bool)
    requires forall i :: 0 <= i < |w| ==> !isSep(w[i])
    requires b == [] || isSep(b[0])
    ensures RunLength(w + b, isSep) == |w|
    decreases |w|
  {
    if w == [] {
      assert w + b == b;
    } else {
      assert (w + b)[1..] == w[1..] + b;
      RunLengthOfWord(w[1..], b, isSep);
    }
  }

  /** `sep.join(ws)`, over any element type. */
  function Join<T>(ws: seq<seq<T>>, sep: seq<T>): seq<T>
    decreases |ws|
  {
    if ws == [] then []
    else if |ws| == 1 then ws[0]
    else ws[0] + sep + Join(ws[1..], sep)
  }

  /** Joining with a run of separators and splitting again gives back the words. */
  lemma {:induction false} SplitJoinRoundTrip<T>(ws: seq<seq<T>>, sep: seq<T>, isSep: T -> bool)
    requires sep != [] && forall i :: 0 <= i < |sep| ==> isSep(sep[i])
    requires forall w :: w in ws ==> w != [] && forall i :: 0 <= i < |w| ==> !isSep(w[i])
    ensures SplitRuns(Join(ws, sep), isSep) == ws
    decreases |ws|
  {
    if ws == [] {
    } else if |ws| == 1 {
      assert ws[0] in ws;
      SplitRunsWord(ws[0], [], isSep);
      assert ws[0] + [] == ws[0];
    } else {
      assert ws[0] in ws;
      var rest := Join(ws[1..], sep);
      assert Join(ws, sep) == ws[0] + (sep + rest);
      SplitRunsWord(ws[0], sep + rest, isSep);
      SplitRunsSkipsSeparators(sep, rest, isSep);
      assert forall w :: w in ws[1..] ==> w in ws;
      SplitJoinRoundTrip(ws[1..], sep, isSep);
      assert SplitRuns(Join(ws, sep), isSep) == [ws[0]] + ws[1..];
    }
  }

  /** No two adjacent elements of `s` are both `bad`. */
  predicate NoAdjacent<T>(s: seq<T>, bad: T -> bool) {
    forall i :: 0 <= i < |s| - 1 ==> !(bad(s[i]) && bad(s[i + 1]))
  }

  /** Every word of a split is a slice of the input, so it inherits NoAdjacent. */
  lemma {:induction false} SplitRunsKeepsNoAdjacent<T>(s: seq<T>, isSep: T -> bool, bad: T -> bool)
    requires NoAdjacent(s, bad)
    ensures forall w :: w in SplitRuns(s, isSep) ==> NoAdjacent(w, bad)
    decreases |s|
  {
    if s == [] {
    } else if isSep(s[0]) {
      assert NoAdjacent(s[1..], bad) by {
        forall i | 0 <= i < |s[1..]| - 1 ensures !(bad(s[1..][i]) && bad(s[1..][i + 1])) {
          assert s[1..][i] == s[i + 1] && s[1..][i + 1] == s[i + 2];
        }
      }
      SplitRunsKeepsNoAdjacent(s[1..], isSep, bad);
    } else {
      var k := RunLength(s, isSep);
      assert NoAdjacent(s[..k], bad) by {
        forall i | 0 <= i < |s[..k]| - 1 ensures !(bad(s[..k][i]) && bad(s[..k][i + 1])) {
          assert s[..k][i] == s[i] && s[..k][i + 1] == s[i + 1];
        }
      }
      assert NoAdjacent(s[k..], bad) by {
        forall i | 0 <= i < |s[k..]| - 1 ensures !(bad(s[k..][i]) && bad(s[k..][i + 1])) {
          assert s[k..][i] == s[k + i] && s[k..][i + 1] == s[k + i + 1];
        }
      }
      SplitRunsKeepsNoAdjacent(s[k..], isSep, bad);
    }
  }

  /** Python's `s.split()`. */
  function Words(s: string): seq<string> {
    SplitRuns(s, IsSpace)
  }

  /** Python's `" ".join(s.split())`: runs of whitespace collapse to one space. */
  function Normalize(s: string): string {
    Join(Words(s), " ")
  }

  /** Normalising keeps the words, and a normalised string is its own normal form. */
  lemma NormalizeKeepsWords(s: string)
    ensures Words(Normalize(s)) == Words(s)
    ensures Normalize(Normalize(s)) == Normalize(s)
  {
    SplitJoinRoundTrip(Words(s), " ", IsSpace);
  }

  /** The leading run is not extended past a separator, wherever that separator lies. */
  lemma {:induction false} RunLengthOfConcat<T>(a: seq<T>, t: seq<T>, isSep: T -> bool)
    requires RunLength(a, isSep) < |a| || (t != [] && isSep(t[0]))
    ensures RunLength(a + t, isSep) == RunLength(a, isSep)
    decreases |a|
  {
    if a == [] {
      assert a + t == t;
    } else if isSep(a[0]) {
      assert (a + t)[0] == a[0];
    } else {
      assert (a + t)[1..] == a[1..] + t;
      RunLengthOfConcat(a[1..], t, isSep);
    }
  }

  /** A separator between two parts splits their words apart: `(a + c + b).split() == a.split() + b.split()`. */
  lemma {:induction false} SplitRunsAtSeparator<T>(a: seq<T>, c: T, b: seq<T>, isSep: T -> bool)
    requires isSep(c)
    ensures SplitRuns(a + [c] + b, isSep) == SplitRuns(a, isSep) + SplitRuns(b, isSep)
    decreases |a|
  {
    var s := a + [c] + b;
    if a == [] {
      assert s == [c] + b;
      SplitRunsSkipsSeparators([c], b, isSep);
    } else if isSep(a[0]) {
      assert s[1..] == a[1..] + [c] + b;
      SplitRunsAtSeparator(a[1..], c, b, isSep);
    } else {
      var k := RunLength(a, isSep);
      RunLengthOfConcat(a, [c] + b, isSep);
      assert s == a + ([c] + b);
      assert s[..k] == a[..k];
      assert s[k..] == a[k..] + [c] + b;
      SplitRunsAtSeparator(a[k..], c, b, isSep);
    }
  }

  /** `(a + " " + b).split() == a.split() + b.split()`. */
  lemma WordsAtSpace(a: string, b: string)
    ensures Words(a + " " + b) == Words(a) + Words(b)
  {
    SplitRunsAtSeparator(a, ' ', b, IsSpace);
  }

  /** The only whitespace is single spaces between non-space characters. */
  predicate IsNormalized(s: string) {
    forall i :: 0 <= i < |s| && IsSpace(s[i]) ==>
      s[i] == ' ' && 0 < i < |s| - 1 && !IsSpace(s[i - 1]) && !IsSpace(s[i + 1])
  }

  /** Words without whitespace, joined by single spaces, are normalized. */
  lemma {:induction false} JoinOfWordsIsNormalized(ws: seq<string>)
    requires forall w :: w in ws ==> w != [] && forall i :: 0 <= i < |w| ==> !IsSpace(w[i])
    ensures IsNormalized(Join(ws, " "))
    ensures ws != [] ==> Join(ws, " ") != [] && !IsSpace(Join(ws, " ")[0]) && !IsSpace(Join(ws, " ")[|Join(ws, " ")| - 1])
    decreases |ws|
  {
    if |ws| == 1 {
      assert ws[0] in ws;
    } else if |ws| >= 2 {
      var w := ws[0];
      assert w in ws;
      assert forall v :: v in ws[1..] ==> v in ws;
      JoinOfWordsIsNormalized(ws[1..]);
      var rest := Join(ws[1..], " ");
      var j := Join(ws, " ");
      assert j == w + " " + rest;
      forall i | 0 <= i < |j| && IsSpace(j[i])
        ensures j[i] == ' ' && 0 < i < |j| - 1 && !IsSpace(j[i - 1]) && !IsSpace(j[i + 1])
      {
        if i == |w| {
          assert j[i - 1] == w[|w| - 1] && j[i + 1] == rest[0];
        } else if i > |w| {
          assert j[i] == rest[i - |w| - 1];
          assert i - |w| - 1 > 0 ==> j[i - 1] == rest[i - |w| - 2];
          assert j[i + 1] == rest[i - |w|];
        }
      }
    }
  }

  /** `" ".join(s.split())` is normalized. */
  lemma NormalizeIsNormalized(s: string)
    ensures IsNormalized(Normalize(s))
  {
    JoinOfWordsIsNormalized(Words(s));
  }

  // ---------------------------------------------------------------------------------
  // Lines: `s.split("\n")` and `s.splitlines()`
  // ---------------------------------------------------------------------------------

  /** The index of the first `c` in `s`, or `|s|`. */
  function IndexOf(s: string, c: char): (k: nat)
    ensures k <= |s| && c !in s[..k] && (k < |s| ==> s[k] == c)
    decreases |s|
  {
    if s == [] || s[0] == c then 0 else 1 + IndexOf(s[1..], c)
  }

  /** Python's `s.split(sep)` for a one-character separator: never an empty list. */
  function SplitOn(s: string, sep: char): (r: seq<string>)
    ensures |r| >= 1
    ensures forall line :: line in r ==> sep !in line
    decreases |s|
  {
    var k := IndexOf(s, sep);
    if k == |s| then [s] else [s[..k]] + SplitOn(s[k + 1..], sep)
  }

  /** Joining the pieces of `s.split(sep)` with `sep` gives `s` back. */
  lemma {:induction false} SplitOnJoin(s: string, sep: char)
    ensures Join(SplitOn(s, sep), [sep]) == s
    decreases |s|
  {
    var k := IndexOf(s, sep);
    if k < |s| {
      var rest := SplitOn(s[k + 1..], sep);
      SplitOnJoin(s[k + 1..], sep);
      assert ([s[..k]] + rest)[1..] == rest;
      assert s == s[..k] + [sep] + s[k + 1..];
    }
  }

  /** The line boundaries of Python's `str.splitlines()`. */
  predicate IsLineBreak(c: char) {
    c == '\n' || c == '\r' || c == '\U{000B}' || c == '\U{000C}' || ('\U{001C}' <= c <= '\U{001E}')
    || c == '\U{0085}' || c == '\U{2028}' || c == '\U{2029}'
  }

  /** Python's `s.splitlines()`: `"\r\n"` is one boundary, and there is no empty last line. */
  function SplitLines(s: string): (r: seq<string>)
    decreases |s|
  {
    if s == [] then []
    else
      var k := RunLength(s, IsLineBreak);
      if k == |s| then [s] else [s[..k]] + SplitLines(s[BreakEnd(s, k)..])
  }

  /** The end of the line boundary at `k`: `"\r\n"` counts as one. */
  function BreakEnd(s: string, k: nat): (next: nat)
    requires k < |s|
    ensures k < next <= |s|
  {
    if s[k] == '\r' && k + 1 < |s| && s[k + 1] == '\n' then k + 2 else k + 1
  }

  /** One of `lines` contains `p`. */
  predicate SomeLineContains(lines: seq<string>, p: string) {
    exists i :: 0 <= i < |lines| && Contains(lines[i], p)
  }

  /** A text contains `p` exactly when one of its lines does, if `p` spans no line boundary. */
  lemma {:induction false} ContainsByLines(s: string, p: string)
    requires p != [] && forall i :: 0 <= i < |p| ==> !IsLineBreak(p[i])
    ensures Contains(s, p) <==> SomeLineContains(SplitLines(s), p)
    decreases |s|
  {
    if s == [] {
      assert !IsPrefix(p, s);
    } else if RunLength(s, IsLineBreak) == |s| {
      ContainsInOneLine(s, SplitLines(s), p);
    } else {
      var k, next := SplitLinesStep(s);
      ContainsByLines(s[next..], p);
      ContainsAtLineBreak(s, p, k, next, SplitLines(s), SplitLines(s[next..]));
    }
  }

  /** A text with a line boundary splits into its first line, the boundary `s[k..next]`, and the rest. */
  lemma {:induction false} SplitLinesStep(s: string) returns (k: nat, next: nat)
    requires s != [] && RunLength(s, IsLineBreak) < |s|
    ensures k < next <= |s| && forall i :: k <= i < next ==> IsLineBreak(s[i])
    ensures SplitLines(s) == [s[..k]] + SplitLines(s[next..])
  {
    k := RunLength(s, IsLineBreak);
    next := BreakEnd(s, k);
    forall i | k <= i < next ensures IsLineBreak(s[i]) {
      if i > k {
        assert s[i] == '\n';
      }
    }
  }

  /** One step of ContainsByLines: the first line ends at `k`, and the boundary runs up to `next`. */
  lemma ContainsAtLineBreak(s: string, p: string, k: nat, next: nat, lines: seq<string>, restLines: seq<string>)
    requires p != [] && forall i :: 0 <= i < |p| ==> !IsLineBreak(p[i])
    requires k < next <= |s| && forall i :: k <= i < next ==> IsLineBreak(s[i])
    requires lines == [s[..k]] + restLines
    requires Contains(s[next..], p) <==> SomeLineContains(restLines, p)
    ensures Contains(s, p) <==> SomeLineContains(lines, p)
  {
    var line, m, rest := s[..k], s[k..next], s[next..];
    assert s == line + m + rest;
    forall i | 0 <= i < |m| ensures m[i] !in p {
      assert IsLineBreak(m[i]);
    }
    ContainsInFirstOrRest(line, m, rest, lines, restLines, p);
  }

  lemma ContainsInOneLine(s: string, lines: seq<string>, p: string)
    requires lines == [s]
    ensures Contains(s, p) <==> SomeLineContains(lines, p)
  {
    if Contains(s, p) {
      assert Contains(lines[0], p);
    }
  }

  /** One step of ContainsByLines: the first line, a boundary `m`, and the remaining lines. */
  lemma ContainsInFirstOrRest(line: string, m: string, rest: string, lines: seq<string>, restLines: seq<string>, p: string)
    requires p != [] && m != []
    requires forall i :: 0 <= i < |m| ==> m[i] !in p
    requires lines == [line] + restLines
    requires Contains(rest, p) <==> SomeLineContains(restLines, p)
    ensures Contains(line + m + rest, p) <==> SomeLineContains(lines, p)
  {
    var whole := line + m + rest;
    ContainsAcross(line, m, rest, p);
    ContainsInPrefix(line, m + rest, p);
    ContainsInConcat(line + m, rest, p);
    assert line + (m + rest) == whole;
    assert lines[0] == line;
    if Contains(whole, p) {
      if Contains(line, p) {
        assert Contains(lines[0], p);
      } else {
        var i :| 0 <= i < |restLines| && Contains(restLines[i], p);
        assert lines[i + 1] == restLines[i];
        assert Contains(lines[i + 1], p);
      }
    }
    if SomeLineContains(lines, p) {
      var i :| 0 <= i < |lines| && Contains(lines[i], p);
      if i > 0 {
        assert restLines[i - 1] == lines[i];
        assert Contains(rest, p);
      } else {
        assert Contains(line, p);
      }
      assert Contains(whole, p);
    }
  }

  // ---------------------------------------------------------------------------------
  // `s.find(sub, start)` and slicing `s[a:b]`
  // ---------------------------------------------------------------------------------

  /** Python's `s.find(sub, start)` for `start >= 0`: the lowest index at or after `start`, else -1. */
  function Find(s: string, sub: string, start: nat): (r: int)
    ensures r == -1 || (start <= r && OccursAt(s, sub, r))
    ensures r == -1 ==> forall i :: start <= i ==> !OccursAt(s, sub, i)
    ensures r != -1 ==> forall i :: start <= i < r ==> !OccursAt(s, sub, i)
    decreases |s| - start
  {
    if start + |sub| > |s| then -1
    else if s[start..start + |sub|] == sub then start
    else Find(s, sub, start + 1)
  }

  /** A Python slice bound `i` normalised against length `n`. */
  function SliceBound(i: int, n: nat): (r: nat)
    ensures r <= n
    ensures 0 <= i <= n ==> r == i
    ensures i < 0 && 0 <= i + n ==> r == i + n
    ensures i > n ==> r == n
    ensures i + n < 0 ==> r == 0
  {
    if i < 0 then (if i + n < 0 then 0 else i + n) else if i > n then n else i
  }

  /** Python's `s[a:b]`: negative bounds count from the end, bounds are clamped. */
  function PySlice(s: string, a: int, b: int): string {
    var lo, hi := SliceBound(a, |s|), SliceBound(b, |s|);
    if lo < hi then s[lo..hi] else []
  }

  // ---------------------------------------------------------------------------------
  // `os.path.dirname`
  // ---------------------------------------------------------------------------------

  /** Python's `p.rfind(c)`: the last index of `c`, or -1. */
  function LastIndexOf(p: string, c: char): (r: int)
    ensures -1 <= r < |p|
    ensures r >= 0 ==> p[r] == c
    ensures forall i :: r < i < |p| ==> p[i] != c
    decreases |p|
  {
    if p == [] then -1
    else if p[|p| - 1] == c then |p| - 1
    else LastIndexOf(p[..|p| - 1], c)
  }

  /** Python's `s.rstrip(c)` for one character. */
  function TrimRight(s: string, c: char): (r: string)
    ensures IsPrefix(r, s)
    ensures forall i :: |r| <= i < |s| ==> s[i] == c
    ensures r == [] || r[|r| - 1] != c
    decreases |s|
  {
    if s != [] && s[|s| - 1] == c then TrimRight(s[..|s| - 1], c) else s
  }

  /**
   * Python's `posixpath.dirname(p)`: the head up to and including the last `/`, with its
   * trailing slashes dropped unless it is made of slashes only.
   */
  function DirName(p: string): (d: string)
    ensures IsPrefix(d, p)
    ensures '/' !in p ==> d == []
    ensures '/' in p ==> var k := LastIndexOf(p, '/');
      && 0 <= k && |d| <= k + 1
      && (forall i :: |d| <= i <= k ==> p[i] == '/')
      && ((exists i :: 0 <= i <= k && p[i] != '/') ==> d != [] && d[|d| - 1] != '/')
      && ((forall i :: 0 <= i <= k ==> p[i] == '/') ==> d == p[..k + 1])
  {
    var head := p[..LastIndexOf(p, '/') + 1];
    if head != [] && exists i :: 0 <= i < |head| && head[i] != '/' then TrimRight(head, '/') else head
  }

  // ---------------------------------------------------------------------------------
  // `int(s)` for a string
  // ---------------------------------------------------------------------------------

  predicate IsDigit(c: char) {
    '0' <= c <= '9'
  }

  /**
   * The digit strings `int()` accepts: ASCII digits, with single underscores allowed
   * between two digits.
   */
  predicate IsDigitString(s: string) {
    s != [] && IsDigit(s[0]) && IsDigit(s[|s| - 1])
    && (forall i :: 0 <= i < |s| ==> IsDigit(s[i]) || s[i] == '_')
    && (forall i :: 0 <= i < |s| - 1 ==> !(s[i] == '_' && s[i + 1] == '_'))
  }

  /** The number the digits of `s` spell, underscores skipped. */
  function DigitsValue(s: string): nat
    requires forall i :: 0 <= i < |s| ==> IsDigit(s[i]) || s[i] == '_'
    decreases |s|
  {
    if s == [] then 0
    else if s[|s| - 1] == '_' then DigitsValue(s[..|s| - 1])
    else
      assert IsDigit(s[|s| - 1]);
      10 * DigitsValue(s[..|s| - 1]) + (s[|s| - 1] as int - '0' as int)
  }

  /** Python's `int(s)` on ASCII input: surrounding whitespace, an optional sign, digits. */
  function ParseInt(s: string): Option<int> {
    var t := Strip(s);
    if t != [] && (t[0] == '-' || t[0] == '+') then
      if IsDigitString(t[1..]) then
        var v: int := DigitsValue(t[1..]);
        Some(if t[0] == '-' then -v else v)
      else None
    else if IsDigitString(t) then Some(DigitsValue(t))
    else None
  }

  /** Python's `str(n)` for a natural number. */
  function NatToString(n: nat): (s: string)
    ensures s != [] && forall i :: 0 <= i < |s| ==> IsDigit(s[i])
  {
    var d := ['0' + (n % 10) as char];
    if n < 10 then d else NatToString(n / 10) + d
  }

  lemma {:induction false} DigitsValueOfNatToString(n: nat)
    ensures DigitsValue(NatToString(n)) == n
  {
    var s := NatToString(n);
    if n >= 10 {
      DigitsValueOfNatToString(n / 10);
      assert s[..|s| - 1] == NatToString(n / 10);
    }
  }

  /** `int(str(n)) == n`. */
  lemma ParseIntRoundTrip(n: nat)
    ensures ParseInt(NatToString(n)) == Some(n)
  {
    var s := NatToString(n);
    assert !IsSpace(s[0]) && !IsSpace(s[|s| - 1]);
    assert StripLeft(s) == s;
    assert Strip(s) == s;
    DigitsValueOfNatToString(n);
  }
}
