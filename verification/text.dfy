/** String primitives the core relies on, written once for any notion of
    "separator character": stripping (JavaScript `trim`, Python `strip`),
    splitting on separator runs (Python `str.split()`), splitting on a fixed
    separator (Python `str.split(sep)`), joining, substring search and ASCII
    case folding. */
module Text {

  /** `s` without its leading characters satisfying `drop`. */
  function StripStart(s: string, drop: char -> bool): (r: string)
    ensures |r| <= |s| && r == s[|s| - |r|..]
    ensures r == [] || !drop(r[0])
    ensures forall k :: 0 <= k < |s| - |r| ==> drop(s[k])
  {
    if s != [] && drop(s[0]) then StripStart(s[1..], drop) else s
  }

  /** `s` without its trailing characters satisfying `drop`. */
  function StripEnd(s: string, drop: char -> bool): (r: string)
    ensures |r| <= |s| && r == s[..|r|]
    ensures r == [] || !drop(r[|r| - 1])
    ensures forall k :: |r| <= k < |s| ==> drop(s[k])
  {
    if s != [] && drop(s[|s| - 1]) then StripEnd(s[..|s| - 1], drop) else s
  }

  /** `s` without the characters satisfying `drop` at either end. */
  function Strip(s: string, drop: char -> bool): string {
    StripEnd(StripStart(s, drop), drop)
  }

  /** Every character of `s` satisfies `p`. */
  predicate All(s: string, p: char -> bool) {
    forall k :: 0 <= k < |s| ==> p(s[k])
  }

  /** A stripped string neither starts nor ends with a dropped character. */
  lemma StripEnds(s: string, drop: char -> bool)
    ensures var r := Strip(s, drop); r == [] || (!drop(r[0]) && !drop(r[|r| - 1]))
  {
    var t := StripStart(s, drop);
    var r := StripEnd(t, drop);
    assert Strip(s, drop) == r;
    if r != [] {
      assert r == t[..|r|];
      assert r[0] == t[0];
    }
  }

  /** Stripping twice strips nothing more. */
  lemma StripIdempotent(s: string, drop: char -> bool)
    ensures Strip(Strip(s, drop), drop) == Strip(s, drop)
  {
    var r := Strip(s, drop);
    StripEnds(s, drop);
    if r != [] {
      assert StripStart(r, drop) == r;
      assert StripEnd(r, drop) == r;
    }
  }

  /** A string strips to nothing exactly when all its characters are dropped. */
  lemma {:induction false} StripEmptyIff(s: string, drop: char -> bool)
    ensures Strip(s, drop) == [] <==> All(s, drop)
  {
    var t := StripStart(s, drop);
    if Strip(s, drop) == [] {
      assert t == [];
    } else {
      assert t != [];
      assert !drop(s[|s| - |t|]);
    }
  }

  /** The characters of `s` satisfying `keep`, in order. */
  function Filter(s: string, keep: char -> bool): (r: string)
    ensures |r| <= |s|
    ensures All(r, keep)
  {
    if s == [] then [] else (if keep(s[0]) then [s[0]] else []) + Filter(s[1..], keep)
  }

  lemma {:induction false} FilterAppend(a: string, b: string, keep: char -> bool)
    ensures Filter(a + b, keep) == Filter(a, keep) + Filter(b, keep)
  {
    if a == [] {
      assert a + b == b;
    } else {
      var head := if keep(a[0]) then [a[0]] else [];
      assert (a + b)[0] == a[0];
      assert (a + b)[1..] == a[1..] + b;
      FilterAppend(a[1..], b, keep);
      calc {
        Filter(a + b, keep);
        head + Filter(a[1..] + b, keep);
        head + (Filter(a[1..], keep) + Filter(b, keep));
        (head + Filter(a[1..], keep)) + Filter(b, keep);
        Filter(a, keep) + Filter(b, keep);
      }
    }
  }

  lemma {:induction false} FilterNone(s: string, keep: char -> bool)
    requires forall k :: 0 <= k < |s| ==> !keep(s[k])
    ensures Filter(s, keep) == []
  {
    if s != [] {
      FilterNone(s[1..], keep);
    }
  }

  lemma {:induction false} FilterAll(s: string, keep: char -> bool)
    requires All(s, keep)
    ensures Filter(s, keep) == s
  {
    if s != [] {
      FilterAll(s[1..], keep);
    }
  }

  /** The longest prefix of `s` free of separators. */
  function Token(s: string, sep: char -> bool): (w: string)
    ensures |w| <= |s| && w == s[..|w|]
    ensures forall k :: 0 <= k < |w| ==> !sep(w[k])
    ensures |w| < |s| ==> sep(s[|w|])
  {
    if s == [] || sep(s[0]) then [] else [s[0]] + Token(s[1..], sep)
  }

  /** Python's `str.split()` with no argument: the maximal runs of
      non-separator characters, in order. */
  function Fields(s: string, sep: char -> bool): seq<string>
    decreases |s|
  {
    var t := StripStart(s, sep);
    if t == [] then []
    else
      var w := Token(t, sep);
      [w] + Fields(t[|w|..], sep)
  }

  /** `w` is a non-empty string free of separators. */
  predicate IsField(w: string, sep: char -> bool) {
    w != [] && forall k :: 0 <= k < |w| ==> !sep(w[k])
  }

  /** Every field is a non-empty string free of separators. */
  lemma {:induction false} FieldsAreFields(s: string, sep: char -> bool)
    ensures forall i :: 0 <= i < |Fields(s, sep)| ==> IsField(Fields(s, sep)[i], sep)
    decreases |s|
  {
    var t := StripStart(s, sep);
    if t != [] {
      var w := Token(t, sep);
      var rest := t[|w|..];
      assert IsField(w, sep) by {
        assert !sep(t[0]);
      }
      assert Fields(s, sep) == [w] + Fields(rest, sep);
      FieldsAreFields(rest, sep);
      ConsFields(w, Fields(rest, sep), sep);
    }
  }

  lemma ConsFields(w: string, more: seq<string>, sep: char -> bool)
    requires IsField(w, sep)
    requires forall i :: 0 <= i < |more| ==> IsField(more[i], sep)
    ensures forall i :: 0 <= i < |[w] + more| ==> IsField(([w] + more)[i], sep)
  {
  }

  lemma SplitAt(s: string, n: nat)
    requires n <= |s|
    ensures s == s[..n] + s[n..]
  {
  }

  /** The strings of `ws` one after the other. */
  function Concat(ws: seq<string>): string {
    if ws == [] then [] else ws[0] + Concat(ws[1..])
  }

  /** Splitting into fields loses exactly the separators: the fields, put back
      together, are the characters of `s` that are not separators (`keep` is
      the complement of `sep`). */
  lemma {:induction false} FieldsKeepText(s: string, sep: char -> bool, keep: char -> bool)
    requires forall c :: keep(c) == !sep(c)
    ensures Concat(Fields(s, sep)) == Filter(s, keep)
    decreases |s|
  {
    var t := StripStart(s, sep);
    assert Filter(s, keep) == Filter(t, keep) by {
      var dropped := s[..|s| - |t|];
      SplitAt(s, |s| - |t|);
      FilterAppend(dropped, t, keep);
      FilterNone(dropped, keep);
    }
    if t != [] {
      var w := Token(t, sep);
      var rest := t[|w|..];
      calc {
        Concat(Fields(s, sep));
        { assert Fields(s, sep) == [w] + Fields(rest, sep);
          assert ([w] + Fields(rest, sep))[1..] == Fields(rest, sep); }
        w + Concat(Fields(rest, sep));
        { FieldsKeepText(rest, sep, keep); }
        w + Filter(rest, keep);
        { SplitAt(t, |w|);
          FilterAppend(w, rest, keep);
          FilterAll(w, keep); }
        Filter(t, keep);
      }
    }
  }

  /** The number of positions of `s` where a run of non-separators begins:
      a non-separator at the start (when `afterSep`) or after a separator. */
  function RunStarts(s: string, sep: char -> bool, afterSep: bool): nat {
    if s == [] then 0
    else (if afterSep && !sep(s[0]) then 1 else 0) + RunStarts(s[1..], sep, sep(s[0]))
  }

  /** There is one field for every place where a run of non-separators begins. */
  lemma {:induction false} FieldsCount(s: string, sep: char -> bool)
    ensures |Fields(s, sep)| == RunStarts(s, sep, true)
    decreases |s|
  {
    var t := StripStart(s, sep);
    SkipSeparators(s, sep);
    if t != [] {
      var w := Token(t, sep);
      assert Fields(s, sep) == [w] + Fields(t[|w|..], sep);
      FieldsCount(t[|w|..], sep);
      TokenRun(t, sep);
    }
  }

  /** A token begins exactly one run. */
  lemma TokenRun(t: string, sep: char -> bool)
    requires t != [] && !sep(t[0])
    ensures RunStarts(t, sep, true) == 1 + RunStarts(t[|Token(t, sep)|..], sep, true)
  {
    var w := Token(t, sep);
    var rest := t[|w|..];
    assert t[1..] == w[1..] + rest;
    SkipRun(w[1..], rest, sep);
    if rest != [] {
      assert sep(rest[0]);
    }
  }

  /** Leading separators begin no run. */
  lemma {:induction false} SkipSeparators(s: string, sep: char -> bool)
    ensures RunStarts(s, sep, true) == RunStarts(StripStart(s, sep), sep, true)
  {
    if s != [] && sep(s[0]) {
      SkipSeparators(s[1..], sep);
    }
  }

  /** Inside a run, no further run begins. */
  lemma {:induction false} SkipRun(x: string, y: string, sep: char -> bool)
    requires forall k :: 0 <= k < |x| ==> !sep(x[k])
    ensures RunStarts(x + y, sep, false) == RunStarts(y, sep, false)
  {
    if x == [] {
      assert x + y == y;
    } else {
      assert (x + y)[0] == x[0];
      assert (x + y)[1..] == x[1..] + y;
      SkipRun(x[1..], y, sep);
    }
  }

  /** `w` is a maximal run of non-separators of `s`, found at position `k`:
      a separator (or the start of `s`) before it, and one (or the end) after it. */
  predicate RunAt(s: string, sep: char -> bool, k: int, w: string) {
    && 0 <= k && k + |w| <= |s| && s[k..k + |w|] == w && IsField(w, sep)
    && (k == 0 || sep(s[k - 1]))
    && (k + |w| == |s| || sep(s[k + |w|]))
  }

  /** For each field of `Fields(s, sep)`, the length of the suffix of `s`
      that begins with it; a suffix length is the same in `s` and in every
      longer string that ends with `s`. */
  function FieldTails(s: string, sep: char -> bool): seq<int>
    decreases |s|
  {
    var t := StripStart(s, sep);
    if t == [] then []
    else [|t|] + FieldTails(t[|Token(t, sep)|..], sep)
  }

  /** Where in `s` each field of `Fields(s, sep)` begins. */
  function FieldStarts(s: string, sep: char -> bool): seq<int> {
    var tails := FieldTails(s, sep);
    seq(|tails|, i requires 0 <= i < |tails| => |s| - tails[i])
  }

  /** `fs` are runs of `s` whose suffix lengths are `tails`, each one ending
      before the next begins. */
  predicate RunsFromEnd(s: string, sep: char -> bool, fs: seq<string>, tails: seq<int>) {
    && |tails| == |fs|
    && (forall i :: 0 <= i < |fs| ==> RunAt(s, sep, |s| - tails[i], fs[i]))
    && (forall i :: 0 < i < |fs| ==> tails[i] + |fs[i - 1]| < tails[i - 1])
  }

  /** The fields are the maximal runs of non-separators of `s`, found at
      strictly increasing, non-adjacent positions: each field is exactly the
      text between two separators (or the ends of `s`). */
  lemma FieldsAreRuns(s: string, sep: char -> bool)
    ensures var f, k := Fields(s, sep), FieldStarts(s, sep);
      && |k| == |f|
      && (forall i :: 0 <= i < |f| ==> RunAt(s, sep, k[i], f[i]))
      && (forall i :: 0 < i < |f| ==> k[i - 1] + |f[i - 1]| < k[i])
  {
    FieldsRunFromEnd(s, sep);
    StartsOfRuns(s, sep, Fields(s, sep), FieldTails(s, sep), FieldStarts(s, sep));
  }

  /** Runs located by their suffix lengths, located instead by their starts. */
  lemma StartsOfRuns(s: string, sep: char -> bool, f: seq<string>, tails: seq<int>, k: seq<int>)
    requires RunsFromEnd(s, sep, f, tails)
    requires |k| == |tails| && forall i :: 0 <= i < |k| ==> k[i] == |s| - tails[i]
    ensures && |k| == |f|
      && (forall i :: 0 <= i < |f| ==> RunAt(s, sep, k[i], f[i]))
      && (forall i :: 0 < i < |f| ==> k[i - 1] + |f[i - 1]| < k[i])
  {
  }

  /** `FieldsAreRuns`, with each position counted from the end of `s`. */
  lemma {:induction false} FieldsRunFromEnd(s: string, sep: char -> bool)
    ensures RunsFromEnd(s, sep, Fields(s, sep), FieldTails(s, sep))
    decreases |s|
  {
    var t := StripStart(s, sep);
    if t != [] {
      var w := Token(t, sep);
      var rest := t[|w|..];
      FieldsRunFromEnd(rest, sep);
      assert w != [] by {
        assert !sep(t[0]);
      }
      RunsStep(s, sep, t, w, Fields(rest, sep), FieldTails(rest, sep));
      assert Fields(s, sep) == [w] + Fields(rest, sep);
      assert FieldTails(s, sep) == [|t|] + FieldTails(rest, sep);
    }
  }

  /** The inductive step of `FieldsRunFromEnd`: the first field, then the runs of what follows it. */
  lemma RunsStep(s: string, sep: char -> bool, t: string, w: string, fs: seq<string>, tails: seq<int>)
    requires |t| <= |s| && t == s[|s| - |t|..] && forall k :: 0 <= k < |s| - |t| ==> sep(s[k])
    requires w != [] && |w| <= |t| && w == t[..|w|] && (forall k :: 0 <= k < |w| ==> !sep(w[k]))
    requires |w| < |t| ==> sep(t[|w|])
    requires RunsFromEnd(t[|w|..], sep, fs, tails)
    ensures RunsFromEnd(s, sep, [w] + fs, [|t|] + tails)
  {
    FirstRun(s, sep, t, w);
    LiftRuns(s, sep, t[|w|..], fs, tails);
    ConsRuns(s, sep, |t|, w, fs, tails);
    ConsApart(|t|, w, fs, tails);
  }

  /** Runs of a suffix that starts with a separator are runs of the whole
      string, none of them at the start of the suffix. */
  lemma LiftRuns(s: string, sep: char -> bool, rest: string, fs: seq<string>, tails: seq<int>)
    requires |rest| <= |s| && rest == s[|s| - |rest|..] && (rest == [] || sep(rest[0])) && |tails| == |fs|
    requires forall i :: 0 <= i < |fs| ==> RunAt(rest, sep, |rest| - tails[i], fs[i])
    ensures forall i :: 0 <= i < |fs| ==> RunAt(s, sep, |s| - tails[i], fs[i]) && tails[i] < |rest|
  {
    forall i | 0 <= i < |fs|
      ensures RunAt(s, sep, |s| - tails[i], fs[i]) && tails[i] < |rest|
    {
      RunShift(s, sep, rest, tails[i], fs[i]);
    }
  }

  /** A run put in front of runs of the same string. */
  lemma ConsRuns(s: string, sep: char -> bool, n: int, w: string, fs: seq<string>, tails: seq<int>)
    requires RunAt(s, sep, |s| - n, w) && |tails| == |fs|
    requires forall i :: 0 <= i < |fs| ==> RunAt(s, sep, |s| - tails[i], fs[i])
    ensures var f, m := [w] + fs, [n] + tails;
      |m| == |f| && forall i :: 0 <= i < |f| ==> RunAt(s, sep, |s| - m[i], f[i])
  {
    var f, m := [w] + fs, [n] + tails;
    forall i | 0 <= i < |f|
      ensures RunAt(s, sep, |s| - m[i], f[i])
    {
      if i > 0 {
        assert f[i] == fs[i - 1] && m[i] == tails[i - 1];
      }
    }
  }

  /** A run put in front of runs that all end before it keeps the runs apart. */
  lemma ConsApart(n: int, w: string, fs: seq<string>, tails: seq<int>)
    requires |tails| == |fs|
    requires forall i :: 0 <= i < |fs| ==> tails[i] < n - |w|
    requires forall i :: 0 < i < |fs| ==> tails[i] + |fs[i - 1]| < tails[i - 1]
    ensures var f, m := [w] + fs, [n] + tails;
      forall i :: 0 < i < |f| ==> m[i] + |f[i - 1]| < m[i - 1]
  {
    var f, m := [w] + fs, [n] + tails;
    forall i | 0 < i < |f|
      ensures m[i] + |f[i - 1]| < m[i - 1]
    {
      assert f[i] == fs[i - 1] && m[i] == tails[i - 1];
      if i > 1 {
        assert f[i - 1] == fs[i - 2] && m[i - 1] == tails[i - 2];
      }
    }
  }

  /** The first field is the run that ends the leading separators, and what
      follows it is a suffix of `s` that starts with a separator. */
  lemma FirstRun(s: string, sep: char -> bool, t: string, w: string)
    requires |t| <= |s| && t == s[|s| - |t|..] && forall k :: 0 <= k < |s| - |t| ==> sep(s[k])
    requires w != [] && |w| <= |t| && w == t[..|w|] && (forall k :: 0 <= k < |w| ==> !sep(w[k]))
    requires |w| < |t| ==> sep(t[|w|])
    ensures var rest := t[|w|..];
      && RunAt(s, sep, |s| - |t|, w)
      && rest == s[|s| - |rest|..]
      && (rest == [] || sep(rest[0]))
  {
    var d := |s| - |t|;
    assert s[d..d + |w|] == t[..|w|];
    if d > 0 {
      assert sep(s[d - 1]);
    }
    if d + |w| < |s| {
      assert s[d + |w|] == t[|w|];
    }
  }

  /** A run found after a separator in a suffix of `s`, `n` characters from
      the end, is a run of `s` at the same distance from the end. */
  lemma RunShift(s: string, sep: char -> bool, rest: string, n: int, v: string)
    requires |rest| <= |s| && rest == s[|s| - |rest|..] && (rest == [] || sep(rest[0]))
    requires RunAt(rest, sep, |rest| - n, v)
    ensures RunAt(s, sep, |s| - n, v) && n < |rest|
  {
    var k, e := |rest| - n, |s| - |rest|;
    assert rest[k] == v[0];
    assert s[k + e..k + e + |v|] == rest[k..k + |v|];
    assert s[k + e - 1] == rest[k - 1];
    if k + |v| < |rest| {
      assert s[k + e + |v|] == rest[k + |v|];
    }
  }

  /** A string has no field exactly when it consists of separators only. */
  lemma NoFieldsIff(s: string, sep: char -> bool)
    ensures Fields(s, sep) == [] <==> All(s, sep)
  {
    var t := StripStart(s, sep);
    if t != [] {
      assert !sep(s[|s| - |t|]);
    }
  }

  /** Python's `str.split(sep)` for a non-empty separator: the pieces between
      the non-overlapping occurrences of `sep` found from the left. */
  function SplitOn(s: string, sep: string): (parts: seq<string>)
    requires sep != []
    ensures parts != []
    ensures |parts[0]| <= |s| && parts[0] == s[..|parts[0]|]
    ensures forall i, j :: 0 <= i < |parts| ==> !BlockAt(parts[i], sep, j)
    decreases |s|
  {
    if |s| < |sep| then [s]
    else if s[..|sep|] == sep then [""] + SplitOn(s[|sep|..], sep)
    else
      var rest := SplitOn(s[1..], sep);
      var first := [s[0]] + rest[0];
      assert first == s[..|first|];
      NoBlockCons(s, rest[0], sep);
      [first] + rest[1..]
  }

  /** A piece free of `sep` stays free of it when the next character of the
      text is put in front, provided the text does not start with `sep`. */
  lemma NoBlockCons(s: string, w: string, sep: string)
    requires sep != [] && |w| < |s| && [s[0]] + w == s[..|w| + 1]
    requires !(|sep| <= |s| && s[..|sep|] == sep)
    requires forall j :: !BlockAt(w, sep, j)
    ensures forall j :: !BlockAt([s[0]] + w, sep, j)
  {
    var v := [s[0]] + w;
    forall j
      ensures !BlockAt(v, sep, j)
    {
      if j == 0 {
        assert |sep| <= |v| ==> v[..|sep|] == s[..|sep|];
      } else if j > 0 {
        assert j + |sep| <= |v| ==> v[j..j + |sep|] == w[j - 1..j - 1 + |sep|];
        assert !BlockAt(w, sep, j - 1);
      }
    }
  }

  /** Python's `sep.join(parts)`. */
  function Join(parts: seq<string>, sep: string): string {
    if parts == [] then []
    else if |parts| == 1 then parts[0]
    else parts[0] + sep + Join(parts[1..], sep)
  }

  /** Splitting and joining back with the same separator gives the string back. */
  lemma {:induction false} JoinSplitOn(s: string, sep: string)
    requires sep != []
    ensures Join(SplitOn(s, sep), sep) == s
    decreases |s|
  {
    if |s| < |sep| {
    } else if s[..|sep|] == sep {
      var rest := SplitOn(s[|sep|..], sep);
      calc {
        Join(SplitOn(s, sep), sep);
        Join([""] + rest, sep);
        { assert ([""] + rest)[1..] == rest; }
        "" + sep + Join(rest, sep);
        { JoinSplitOn(s[|sep|..], sep); }
        sep + s[|sep|..];
        { SplitAt(s, |sep|); }
        s;
      }
    } else {
      var rest := SplitOn(s[1..], sep);
      calc {
        Join(SplitOn(s, sep), sep);
        Join([[s[0]] + rest[0]] + rest[1..], sep);
        { JoinCons(s[0], rest, sep); }
        [s[0]] + Join(rest, sep);
        { JoinSplitOn(s[1..], sep); }
        [s[0]] + s[1..];
        s;
      }
    }
  }

  /** Putting a character in front of the first part puts it in front of the join. */
  lemma JoinCons(c: char, parts: seq<string>, sep: string)
    requires parts != []
    ensures Join([[c] + parts[0]] + parts[1..], sep) == [c] + Join(parts, sep)
  {
    var longer := [[c] + parts[0]] + parts[1..];
    if |parts| == 1 {
      assert longer == [[c] + parts[0]];
    } else {
      assert longer[1..] == parts[1..];
      assert longer[0] == [c] + parts[0];
    }
  }

  /** Joining pieces that satisfy `p` throughout, with a separator that does
      too, gives a string that satisfies `p` throughout. */
  lemma {:induction false} JoinAll(parts: seq<string>, sep: string, p: char -> bool)
    requires forall i :: 0 <= i < |parts| ==> All(parts[i], p)
    requires All(sep, p)
    ensures All(Join(parts, sep), p)
  {
    if |parts| > 1 {
      JoinAll(parts[1..], sep, p);
      var rest := Join(parts[1..], sep);
      assert Join(parts, sep) == parts[0] + sep + rest;
      forall k | 0 <= k < |parts[0] + sep + rest|
        ensures p((parts[0] + sep + rest)[k])
      {
        if k < |parts[0]| {
        } else if k < |parts[0]| + |sep| {
          assert (parts[0] + sep + rest)[k] == sep[k - |parts[0]|];
        } else {
          assert (parts[0] + sep + rest)[k] == rest[k - |parts[0]| - |sep|];
        }
      }
    }
  }

  /** A part of a joined string satisfies whatever the whole joined string satisfies throughout. */
  lemma {:induction false} JoinedPartsAll(parts: seq<string>, sep: string, p: char -> bool, i: int)
    requires 0 <= i < |parts|
    ensures All(Join(parts, sep), p) ==> All(parts[i], p)
  {
    if |parts| > 1 {
      var whole := Join(parts, sep);
      var rest := Join(parts[1..], sep);
      assert whole == parts[0] + sep + rest;
      if i == 0 {
        assert forall k :: 0 <= k < |parts[0]| ==> parts[0][k] == whole[k];
      } else {
        assert forall k :: 0 <= k < |rest| ==> rest[k] == whole[|parts[0]| + |sep| + k];
        JoinedPartsAll(parts[1..], sep, p, i - 1);
      }
    }
  }

  /** The parts that do not strip to nothing, stripped, in order
      (Python's `[p.strip() for p in parts if p.strip()]`). */
  function StripNonEmpty(parts: seq<string>, drop: char -> bool): (r: seq<string>)
    ensures |r| <= |parts|
    ensures forall i :: 0 <= i < |r| ==> r[i] != []
  {
    if parts == [] then []
    else
      var first := Strip(parts[0], drop);
      (if first == [] then [] else [first]) + StripNonEmpty(parts[1..], drop)
  }

  /** The surviving parts are the stripped parts, each as often as it occurs,
      except the empty string. */
  lemma {:induction false} StripNonEmptyKeeps(parts: seq<string>, drop: char -> bool)
    ensures multiset(StripNonEmpty(parts, drop)) == multiset(StripAll(parts, drop))[[] := 0]
  {
    if parts != [] {
      var first := Strip(parts[0], drop);
      StripNonEmptyKeeps(parts[1..], drop);
      KeepNonEmpty(first, StripAll(parts[1..], drop), StripNonEmpty(parts[1..], drop));
    }
  }

  /** Putting one more string in front keeps `kept` the non-empty strings of `all`. */
  lemma KeepNonEmpty(first: string, all: seq<string>, kept: seq<string>)
    requires multiset(kept) == multiset(all)[[] := 0]
    ensures multiset((if first == [] then [] else [first]) + kept)
      == multiset([first] + all)[[] := 0]
  {
  }

  /** Every part, stripped. */
  function StripAll(parts: seq<string>, drop: char -> bool): seq<string> {
    if parts == [] then [] else [Strip(parts[0], drop)] + StripAll(parts[1..], drop)
  }

  /** Nothing survives exactly when every part consists of dropped characters only. */
  lemma {:induction false} StripNonEmptyIff(parts: seq<string>, drop: char -> bool)
    ensures StripNonEmpty(parts, drop) == [] <==> forall i :: 0 <= i < |parts| ==> All(parts[i], drop)
  {
    if parts != [] {
      StripNonEmptyIff(parts[1..], drop);
      StripEmptyIff(parts[0], drop);
      assert forall i :: 1 <= i < |parts| ==> parts[i] == parts[1..][i - 1];
    }
  }

  /** Joined with a separator of dropped characters, some part survives
      stripping exactly when the whole joined string does. */
  lemma JoinStripNonEmpty(parts: seq<string>, sep: string, drop: char -> bool)
    requires All(sep, drop)
    ensures StripNonEmpty(parts, drop) == [] <==> All(Join(parts, sep), drop)
  {
    StripNonEmptyIff(parts, drop);
    if forall i :: 0 <= i < |parts| ==> All(parts[i], drop) {
      JoinAll(parts, sep, drop);
    } else {
      var i :| 0 <= i < |parts| && !All(parts[i], drop);
      JoinedPartsAll(parts, sep, drop, i);
    }
  }

  /** Python's `needle in hay` on strings: `needle` occurs in `hay` as a block. */
  predicate Contains(hay: string, needle: string)
    decreases |hay|
  {
    (|needle| <= |hay| && hay[..|needle|] == needle) || (hay != [] && Contains(hay[1..], needle))
  }

  /** `needle` occurs in `hay` starting at position `i`. */
  predicate BlockAt(hay: string, needle: string, i: int) {
    0 <= i && i + |needle| <= |hay| && hay[i..i + |needle|] == needle
  }

  /** `Contains` finds exactly the blocks of `hay`. */
  lemma {:induction false} ContainsIff(hay: string, needle: string)
    ensures Contains(hay, needle) <==> exists i :: BlockAt(hay, needle, i)
    decreases |hay|
  {
    if hay != [] {
      ContainsIff(hay[1..], needle);
      if exists i :: BlockAt(hay, needle, i) {
        var i :| BlockAt(hay, needle, i);
        if i > 0 {
          var tail := hay[1..];
          assert forall k :: 0 <= k < |tail| ==> tail[k] == hay[k + 1];
          assert hay[1..][i - 1..i - 1 + |needle|] == hay[i..i + |needle|];
          assert BlockAt(hay[1..], needle, i - 1);
        } else {
          assert hay[..|needle|] == needle;
        }
      }
      if Contains(hay[1..], needle) {
        var i :| BlockAt(hay[1..], needle, i);
        var tail := hay[1..];
        assert forall k :: 0 <= k < |tail| ==> tail[k] == hay[k + 1];
        assert hay[i + 1..i + 1 + |needle|] == hay[1..][i..i + |needle|];
        assert BlockAt(hay, needle, i + 1);
      }
      if |needle| <= |hay| && hay[..|needle|] == needle {
        assert BlockAt(hay, needle, 0);
      }
    } else {
      if exists i :: BlockAt(hay, needle, i) {
        var i :| BlockAt(hay, needle, i);
        assert needle == [];
      }
      if needle == [] {
        assert hay[..0] == needle;
        assert BlockAt(hay, needle, 0);
      }
    }
  }

  /** The empty string occurs in every string. */
  lemma ContainsEmpty(hay: string)
    ensures Contains(hay, "")
  {
  }

  /** ASCII case folding of one character: `A`..`Z` become `a`..`z`. */
  function LowerChar(c: char): (d: char)
    ensures 'A' <= c <= 'Z' ==> 'a' <= d <= 'z' && d as int - c as int == 32
    ensures !('A' <= c <= 'Z') ==> d == c
  {
    if 'A' <= c <= 'Z' then (c as int + 32) as char else c
  }

  /** `str.lower()` on ASCII letters; other characters are kept. */
  function Lower(s: string): (r: string)
    ensures |r| == |s|
    ensures forall k :: 0 <= k < |s| ==> r[k] == LowerChar(s[k])
  {
    seq(|s|, k requires 0 <= k < |s| => LowerChar(s[k]))
  }

  /** Lower-casing is idempotent and leaves no upper-case ASCII letter. */
  lemma LowerIdempotent(s: string)
    ensures Lower(Lower(s)) == Lower(s)
    ensures forall k :: 0 <= k < |s| ==> !('A' <= Lower(s)[k] <= 'Z')
  {
  }

  /** A decimal digit. */
  function Digit(d: nat): (c: char)
    requires d < 10
    ensures '0' <= c <= '9' && c as int - '0' as int == d
  {
    ('0' as int + d) as char
  }

  /** The number a string of decimal digits denotes. */
  function DecimalValue(r: string): int {
    if r == [] then 0 else 10 * DecimalValue(r[..|r| - 1]) + (r[|r| - 1] as int - '0' as int)
  }

  /** Python's `str(n)` for a natural number: the decimal digits of `n`, without leading zeros. */
  function NatToString(n: nat): (r: string)
    ensures r != [] && forall k :: 0 <= k < |r| ==> '0' <= r[k] <= '9'
    ensures |r| > 1 ==> r[0] != '0'
    ensures DecimalValue(r) == n
  {
    if n < 10 then [Digit(n)]
    else
      var high := NatToString(n / 10);
      assert (high + [Digit(n % 10)])[..|high|] == high;
      high + [Digit(n % 10)]
  }
}
