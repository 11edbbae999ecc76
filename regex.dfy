/**
 * A backtracking matcher for the part of Python's `re` language that the
 * extractor's three capture patterns use: a concatenation of character classes,
 * each matched exactly once or repeated at least `min` times, greedily (`*`, `+`)
 * or lazily (`+?`), one of them forming capture group 1.
 *
 * `MatchHere` follows the order in which Python's engine tries the repetition
 * counts; `Search` scans start positions left to right as `re.search` does.
 * `Fits` and `Prefers` say declaratively what a match is and which of two
 * matches at the same start the engine reports, and `SearchCorrect` ties the
 * two views together.
 */
module Regex {
  import opened Wrappers
  import opened Text

  datatype CharClass =
    | Exactly(ch: char)   // a literal character
    | Colon               // [:：], ASCII colon or full-width colon U+FF1A
    | Space               // \s
    | NotNewline          // .
    | DigitUpperSpace     // [0-9A-Z\s]
    | DigitSpace          // [0-9\s]

  predicate InClass(cls: CharClass, c: char) {
    match cls
    case Exactly(d) => c == d
    case Colon => c == ':' || c == '\U{FF1A}'
    case Space => IsSpace(c)
    case NotNewline => c != '\n'
    case DigitUpperSpace => IsDigit(c) || IsUpper(c) || IsSpace(c)
    case DigitSpace => IsDigit(c) || IsSpace(c)
  }

  /** `Once` is a bare class; `AtLeast(0, true)` is `*`, `AtLeast(1, true)` is `+`, `AtLeast(1, false)` is `+?`. */
  datatype Repeat = Once | AtLeast(min: nat, greedy: bool)

  datatype Piece = Piece(cls: CharClass, rep: Repeat, group: bool)

  type Pattern = seq<Piece>

  /** The pattern matching the literal text `w`. */
  function Literal(w: string): Pattern {
    seq(|w|, k requires 0 <= k < |w| => Piece(Exactly(w[k]), Once, false))
  }

  /** How many characters from `pos` on belong to `cls`: the most a repetition of `cls` can take. */
  function RunLength(s: string, pos: nat, cls: CharClass): (n: nat)
    requires pos <= |s|
    ensures pos + n <= |s|
    ensures forall k :: pos <= k < pos + n ==> InClass(cls, s[k])
    ensures pos + n == |s| || !InClass(cls, s[pos + n])
    decreases |s| - pos
  {
    if pos < |s| && InClass(cls, s[pos]) then 1 + RunLength(s, pos + 1, cls) else 0
  }

  /** The repetition count tried at attempt `t`: most first for a greedy repetition, fewest first for a lazy one. */
  function CountAt(greedy: bool, lo: nat, hi: nat, t: nat): nat
    requires lo <= hi && t <= hi - lo
  {
    if greedy then hi - t else lo + t
  }

  /**
   * The match of `ps` at `pos` that backtracking reports, given as the number of
   * characters each piece takes, or None when `ps` does not match at `pos`.
   */
  function MatchHere(s: string, pos: nat, ps: Pattern): Option<seq<nat>>
    requires pos <= |s|
    decreases |ps|, |s| + 2
  {
    if ps == [] then Some([])
    else
      match ps[0].rep
      case Once =>
        if pos < |s| && InClass(ps[0].cls, s[pos]) then
          match MatchHere(s, pos + 1, ps[1..])
          case Some(rest) => Some([1] + rest)
          case None => None
        else None
      case AtLeast(lo, _) =>
        var hi := RunLength(s, pos, ps[0].cls);
        if hi < lo then None else TryCounts(s, pos, ps, lo, hi, 0)
  }

  /** Tries the counts of the repetition `ps[0]` from attempt `t` on, returning the first that lets the rest match. */
  function TryCounts(s: string, pos: nat, ps: Pattern, lo: nat, hi: nat, t: nat): Option<seq<nat>>
    requires ps != [] && ps[0].rep.AtLeast? && lo == ps[0].rep.min
    requires lo <= hi && pos + hi <= |s|
    decreases |ps|, hi - lo + 1 - t
  {
    if t > hi - lo then None
    else
      var c := CountAt(ps[0].rep.greedy, lo, hi, t);
      match MatchHere(s, pos + c, ps[1..])
      case Some(rest) => Some([c] + rest)
      case None => TryCounts(s, pos, ps, lo, hi, t + 1)
  }

  predicate Allowed(rep: Repeat, c: nat) {
    match rep
    case Once => c == 1
    case AtLeast(lo, _) => lo <= c
  }

  /** The counts `cs` describe a match of `ps` starting at `pos` of `s`. */
  ghost predicate Fits(s: string, pos: nat, ps: Pattern, cs: seq<nat>)
    decreases |ps|
  {
    pos <= |s| && |cs| == |ps| &&
    (ps != [] ==>
      Allowed(ps[0].rep, cs[0]) && pos + cs[0] <= |s| &&
      (forall k :: pos <= k < pos + cs[0] ==> InClass(ps[0].cls, s[k])) &&
      Fits(s, pos + cs[0], ps[1..], cs[1..]))
  }

  /**
   * Backtracking reports the match `cs` before the match `ds`: at the first piece
   * where they differ, `cs` takes more characters of a greedy repetition or fewer
   * of a lazy one.
   */
  ghost predicate Prefers(ps: Pattern, cs: seq<nat>, ds: seq<nat>)
    requires |cs| == |ps| && |ds| == |ps|
    decreases |ps|
  {
    ps != [] &&
    if cs[0] == ds[0] then Prefers(ps[1..], cs[1..], ds[1..])
    else ps[0].rep.AtLeast? && (if ps[0].rep.greedy then cs[0] > ds[0] else cs[0] < ds[0])
  }

  lemma {:induction false} TryCountsSome(s: string, pos: nat, ps: Pattern, lo: nat, hi: nat, t: nat) returns (u: nat)
    requires ps != [] && ps[0].rep.AtLeast? && lo == ps[0].rep.min
    requires lo <= hi && pos + hi <= |s|
    requires TryCounts(s, pos, ps, lo, hi, t).Some?
    ensures t <= u <= hi - lo
    ensures var c := CountAt(ps[0].rep.greedy, lo, hi, u);
      MatchHere(s, pos + c, ps[1..]).Some? &&
      TryCounts(s, pos, ps, lo, hi, t) == Some([c] + MatchHere(s, pos + c, ps[1..]).value)
    ensures forall v :: t <= v < u ==> MatchHere(s, pos + CountAt(ps[0].rep.greedy, lo, hi, v), ps[1..]).None?
    decreases hi - lo + 1 - t
  {
    var c := CountAt(ps[0].rep.greedy, lo, hi, t);
    if MatchHere(s, pos + c, ps[1..]).Some? {
      u := t;
    } else {
      u := TryCountsSome(s, pos, ps, lo, hi, t + 1);
    }
  }

  /** An attempt from `t` on after which the rest matches makes `TryCounts` succeed. */
  lemma {:induction false} TryCountsFinds(s: string, pos: nat, ps: Pattern, lo: nat, hi: nat, t: nat, v: nat)
    requires ps != [] && ps[0].rep.AtLeast? && lo == ps[0].rep.min
    requires lo <= hi && pos + hi <= |s| && t <= v <= hi - lo
    requires MatchHere(s, pos + CountAt(ps[0].rep.greedy, lo, hi, v), ps[1..]).Some?
    ensures TryCounts(s, pos, ps, lo, hi, t).Some?
    decreases v - t
  {
    if t < v && MatchHere(s, pos + CountAt(ps[0].rep.greedy, lo, hi, t), ps[1..]).None? {
      TryCountsFinds(s, pos, ps, lo, hi, t + 1, v);
    }
  }

  /** Whatever `MatchHere` reports is a match. */
  lemma {:induction false} MatchHereSound(s: string, pos: nat, ps: Pattern)
    requires pos <= |s| && MatchHere(s, pos, ps).Some?
    ensures Fits(s, pos, ps, MatchHere(s, pos, ps).value)
    decreases |ps|
  {
    if ps != [] {
      var cs := MatchHere(s, pos, ps).value;
      match ps[0].rep
      case Once =>
        MatchHereSound(s, pos + 1, ps[1..]);
        assert cs[1..] == MatchHere(s, pos + 1, ps[1..]).value;
      case AtLeast(lo, greedy) =>
        var hi := RunLength(s, pos, ps[0].cls);
        var u := RepeatFirst(s, pos, ps);
        var c := CountAt(greedy, lo, hi, u);
        MatchHereSound(s, pos + c, ps[1..]);
        RepeatSound(s, pos, ps, c, MatchHere(s, pos + c, ps[1..]).value);
    }
  }

  /** A repetition taking `c` characters of its run, followed by a match of the rest, is a match. */
  lemma RepeatSound(s: string, pos: nat, ps: Pattern, c: nat, rest: seq<nat>)
    requires pos <= |s| && ps != [] && ps[0].rep.AtLeast?
    requires ps[0].rep.min <= c <= RunLength(s, pos, ps[0].cls)
    requires Fits(s, pos + c, ps[1..], rest)
    ensures Fits(s, pos, ps, [c] + rest)
  {
    assert ([c] + rest)[0] == c && ([c] + rest)[1..] == rest;
  }

  /** `MatchHere` reports None only when nothing matches: no counts fit. */
  lemma {:induction false} MatchHereComplete(s: string, pos: nat, ps: Pattern, ds: seq<nat>)
    requires Fits(s, pos, ps, ds)
    ensures pos <= |s| && MatchHere(s, pos, ps).Some?
    decreases |ps|
  {
    if ps != [] {
      MatchHereComplete(s, pos + ds[0], ps[1..], ds[1..]);
      if ps[0].rep.AtLeast? {
        RepeatComplete(s, pos, ps, ds);
      }
    }
  }

  /** A repetition with a count after which the rest matches makes `MatchHere` succeed. */
  lemma RepeatComplete(s: string, pos: nat, ps: Pattern, ds: seq<nat>)
    requires ps != [] && ps[0].rep.AtLeast? && Fits(s, pos, ps, ds)
    requires MatchHere(s, pos + ds[0], ps[1..]).Some?
    ensures MatchHere(s, pos, ps).Some?
  {
    var lo, hi := ps[0].rep.min, RunLength(s, pos, ps[0].cls);
    var v := AttemptOf(s, pos, ps, ds);
    TryCountsFinds(s, pos, ps, lo, hi, 0, v);
  }

  /** Among all matches at `pos`, `MatchHere` reports the one backtracking reaches first. */
  lemma {:induction false} MatchHerePreferred(s: string, pos: nat, ps: Pattern, ds: seq<nat>)
    requires pos <= |s| && MatchHere(s, pos, ps).Some? && Fits(s, pos, ps, ds)
    ensures var cs := MatchHere(s, pos, ps).value; |cs| == |ps| && (cs == ds || Prefers(ps, cs, ds))
    decreases |ps|, 1
  {
    MatchHereSound(s, pos, ps);
    if ps != [] {
      if ps[0].rep.Once? {
        var cs := MatchHere(s, pos, ps).value;
        MatchHerePreferred(s, pos + 1, ps[1..], ds[1..]);
        assert cs[1..] == MatchHere(s, pos + 1, ps[1..]).value;
        PrefersFirstEqual(ps, cs, ds);
      } else {
        RepeatPreferred(s, pos, ps, ds);
      }
    }
  }

  lemma {:induction false} RepeatPreferred(s: string, pos: nat, ps: Pattern, ds: seq<nat>)
    requires pos <= |s| && ps != [] && ps[0].rep.AtLeast?
    requires MatchHere(s, pos, ps).Some? && Fits(s, pos, ps, ds)
    ensures var cs := MatchHere(s, pos, ps).value; |cs| == |ps| && (cs == ds || Prefers(ps, cs, ds))
    decreases |ps|, 0
  {
    var v := AttemptOf(s, pos, ps, ds);
    MatchHereComplete(s, pos + ds[0], ps[1..], ds[1..]);
    var c, rest := RepeatChoice(s, pos, ps, v);
    if c == ds[0] {
      MatchHerePreferred(s, pos + c, ps[1..], ds[1..]);
    }
    RepeatPreferredStep(ps, [c] + rest, c, rest, ds);
  }

  /**
   * The reported match `cs` takes `c` and then `rest`; against another match `ds`
   * it is preferred at the first piece or, when both take `c`, as `rest` is.
   */
  lemma RepeatPreferredStep(ps: Pattern, cs: seq<nat>, c: nat, rest: seq<nat>, ds: seq<nat>)
    requires ps != [] && ps[0].rep.AtLeast? && |ds| == |ps| && |rest| == |ps| - 1
    requires cs == [c] + rest
    requires c == ds[0] ==> rest == ds[1..] || Prefers(ps[1..], rest, ds[1..])
    requires c != ds[0] ==> if ps[0].rep.greedy then c > ds[0] else c < ds[0]
    ensures |cs| == |ps| && (cs == ds || Prefers(ps, cs, ds))
  {
    assert cs[0] == c && cs[1..] == rest;
    if c == ds[0] {
      PrefersFirstEqual(ps, cs, ds);
    } else {
      PrefersFirstDiffers(ps, cs, ds);
    }
  }

  /** Two matches that agree on the first piece compare as their rests do. */
  lemma PrefersFirstEqual(ps: Pattern, cs: seq<nat>, ds: seq<nat>)
    requires ps != [] && |cs| == |ps| && |ds| == |ps| && cs[0] == ds[0]
    requires cs[1..] == ds[1..] || Prefers(ps[1..], cs[1..], ds[1..])
    ensures cs == ds || Prefers(ps, cs, ds)
  {
    if cs[1..] == ds[1..] {
      assert cs == [cs[0]] + cs[1..] && ds == [ds[0]] + ds[1..];
    }
  }

  /** A repetition that takes more (greedy) or fewer (lazy) characters decides the preference. */
  lemma PrefersFirstDiffers(ps: Pattern, cs: seq<nat>, ds: seq<nat>)
    requires ps != [] && |cs| == |ps| && |ds| == |ps| && ps[0].rep.AtLeast?
    requires if ps[0].rep.greedy then cs[0] > ds[0] else cs[0] < ds[0]
    ensures Prefers(ps, cs, ds)
  {
  }

  /** The attempt at which backtracking tries the count a match gives the repetition `ps[0]`. */
  lemma AttemptOf(s: string, pos: nat, ps: Pattern, ds: seq<nat>) returns (v: nat)
    requires ps != [] && ps[0].rep.AtLeast? && Fits(s, pos, ps, ds)
    ensures var lo, hi := ps[0].rep.min, RunLength(s, pos, ps[0].cls);
      lo <= hi && v <= hi - lo && CountAt(ps[0].rep.greedy, lo, hi, v) == ds[0]
  {
    var lo, hi := ps[0].rep.min, RunLength(s, pos, ps[0].cls);
    RunLengthBound(s, pos, ps[0].cls, ds[0]);
    v := if ps[0].rep.greedy then hi - ds[0] else ds[0] - lo;
  }

  /** Earlier attempts take more characters of a greedy repetition and fewer of a lazy one. */
  lemma CountAtOrder(greedy: bool, lo: nat, hi: nat, u: nat, v: nat)
    requires lo <= hi && u < v <= hi - lo
    ensures if greedy then CountAt(greedy, lo, hi, u) > CountAt(greedy, lo, hi, v)
            else CountAt(greedy, lo, hi, u) < CountAt(greedy, lo, hi, v)
  {
  }

  /**
   * How a successful match of a repetition is made up: a count `c` and the match
   * `rest` of the rest after it, where `c` is the count of attempt `v` or one
   * tried before it, after which the rest matches too.
   */
  lemma RepeatChoice(s: string, pos: nat, ps: Pattern, v: nat) returns (c: nat, rest: seq<nat>)
    requires pos <= |s| && ps != [] && ps[0].rep.AtLeast? && MatchHere(s, pos, ps).Some?
    requires var lo, hi := ps[0].rep.min, RunLength(s, pos, ps[0].cls);
      lo <= hi && v <= hi - lo &&
      MatchHere(s, pos + CountAt(ps[0].rep.greedy, lo, hi, v), ps[1..]).Some?
    ensures pos + c <= |s| && MatchHere(s, pos + c, ps[1..]) == Some(rest)
    ensures MatchHere(s, pos, ps).value == [c] + rest && |rest| == |ps| - 1
    ensures var d := CountAt(ps[0].rep.greedy, ps[0].rep.min, RunLength(s, pos, ps[0].cls), v);
      c == d || (if ps[0].rep.greedy then c > d else c < d)
  {
    var lo, hi := ps[0].rep.min, RunLength(s, pos, ps[0].cls);
    var u := RepeatFirst(s, pos, ps);
    assert u <= v;
    c := CountAt(ps[0].rep.greedy, lo, hi, u);
    rest := MatchHere(s, pos + c, ps[1..]).value;
    MatchHereSound(s, pos + c, ps[1..]);
    if u < v {
      CountAtOrder(ps[0].rep.greedy, lo, hi, u, v);
    }
  }

  /** The attempt at which backtracking first finds a match of the rest after the repetition `ps[0]`. */
  lemma RepeatFirst(s: string, pos: nat, ps: Pattern) returns (u: nat)
    requires pos <= |s| && ps != [] && ps[0].rep.AtLeast? && MatchHere(s, pos, ps).Some?
    ensures var lo, hi := ps[0].rep.min, RunLength(s, pos, ps[0].cls);
      lo <= hi && u <= hi - lo &&
      var c := CountAt(ps[0].rep.greedy, lo, hi, u);
      MatchHere(s, pos + c, ps[1..]).Some? &&
      MatchHere(s, pos, ps) == Some([c] + MatchHere(s, pos + c, ps[1..]).value)
    ensures var lo, hi := ps[0].rep.min, RunLength(s, pos, ps[0].cls);
      forall w :: 0 <= w < u ==> MatchHere(s, pos + CountAt(ps[0].rep.greedy, lo, hi, w), ps[1..]).None?
  {
    var lo, hi := ps[0].rep.min, RunLength(s, pos, ps[0].cls);
    assert MatchHere(s, pos, ps) == TryCounts(s, pos, ps, lo, hi, 0);
    u := TryCountsSome(s, pos, ps, lo, hi, 0);
  }

  /** No class run from `pos` is longer than `RunLength`. */
  lemma RunLengthBound(s: string, pos: nat, cls: CharClass, d: nat)
    requires pos + d <= |s| && forall k :: pos <= k < pos + d ==> InClass(cls, s[k])
    ensures d <= RunLength(s, pos, cls)
  {
  }

  /** `MatchHere` on the counts of a successful match, in the contrapositive form. */
  lemma MatchHereNone(s: string, pos: nat, ps: Pattern, ds: seq<nat>)
    requires pos <= |s| && MatchHere(s, pos, ps).None?
    ensures !Fits(s, pos, ps, ds)
  {
    if Fits(s, pos, ps, ds) {
      MatchHereComplete(s, pos, ps, ds);
    }
  }

  // ---------------------------------------------------------------------------
  // re.search

  /** Python's `re.search` from position `start`: the first start position at which `ps` matches, and that match. */
  function SearchFrom(s: string, ps: Pattern, start: nat): Option<(nat, seq<nat>)>
    requires start <= |s|
    decreases |s| - start
  {
    match MatchHere(s, start, ps)
    case Some(cs) => Some((start, cs))
    case None => if start == |s| then None else SearchFrom(s, ps, start + 1)
  }

  function Search(s: string, ps: Pattern): Option<(nat, seq<nat>)> {
    SearchFrom(s, ps, 0)
  }

  /** No match of `ps` starts at a position from `from` up to, but not including, `i`. */
  ghost predicate NoMatchIn(s: string, ps: Pattern, from: nat, i: nat) {
    forall j, ds :: from <= j < i ==> !Fits(s, j, ps, ds)
  }

  /** The match `re.search` reports: the leftmost start with any match, and there the match backtracking reaches first. */
  ghost predicate IsFirstMatch(s: string, ps: Pattern, from: nat, i: nat, cs: seq<nat>) {
    from <= i <= |s| && Fits(s, i, ps, cs) && NoMatchIn(s, ps, from, i) &&
    (forall ds :: Fits(s, i, ps, ds) ==> ds == cs || Prefers(ps, cs, ds))
  }

  lemma {:induction false} SearchFromCorrect(s: string, ps: Pattern, start: nat)
    requires start <= |s|
    ensures SearchFrom(s, ps, start).None? <==> forall i, ds :: start <= i <= |s| ==> !Fits(s, i, ps, ds)
    ensures SearchFrom(s, ps, start).Some? ==>
      IsFirstMatch(s, ps, start, SearchFrom(s, ps, start).value.0, SearchFrom(s, ps, start).value.1)
    decreases |s| - start
  {
    match MatchHere(s, start, ps)
    case Some(cs) =>
      MatchHereSound(s, start, ps);
      assert Fits(s, start, ps, cs);
      forall ds | Fits(s, start, ps, ds) ensures ds == cs || Prefers(ps, cs, ds) {
        MatchHerePreferred(s, start, ps, ds);
      }
    case None =>
      forall ds ensures !Fits(s, start, ps, ds) {
        MatchHereNone(s, start, ps, ds);
      }
      if start < |s| {
        SearchFromCorrect(s, ps, start + 1);
      }
  }

  /** `Search` reports a match exactly when one exists, and then the one Python's `re.search` reports. */
  lemma SearchCorrect(s: string, ps: Pattern)
    ensures Search(s, ps).None? <==> forall i, ds :: 0 <= i <= |s| ==> !Fits(s, i, ps, ds)
    ensures Search(s, ps).Some? ==> IsFirstMatch(s, ps, 0, Search(s, ps).value.0, Search(s, ps).value.1)
  {
    SearchFromCorrect(s, ps, 0);
  }

  lemma {:induction false} PrefersAsymmetric(ps: Pattern, cs: seq<nat>, ds: seq<nat>)
    requires |cs| == |ps| && |ds| == |ps|
    requires Prefers(ps, cs, ds)
    ensures !Prefers(ps, ds, cs) && cs != ds
    decreases |ps|
  {
    if cs[0] == ds[0] {
      PrefersAsymmetric(ps[1..], cs[1..], ds[1..]);
    }
  }

  /** The reported match is determined by the declarative description alone. */
  lemma FirstMatchUnique(s: string, ps: Pattern, i: nat, cs: seq<nat>, j: nat, ds: seq<nat>)
    requires IsFirstMatch(s, ps, 0, i, cs) && IsFirstMatch(s, ps, 0, j, ds)
    ensures i == j && cs == ds
  {
    assert !(i < j) && !(j < i);
    if cs != ds {
      assert Prefers(ps, cs, ds) && Prefers(ps, ds, cs);
      PrefersAsymmetric(ps, cs, ds);
    }
  }

  // ---------------------------------------------------------------------------
  // Capture group 1

  /** The text taken by the first group piece of a match. */
  function GroupText(s: string, pos: nat, ps: Pattern, cs: seq<nat>): string
    requires Fits(s, pos, ps, cs)
    decreases |ps|
  {
    if ps == [] then []
    else if ps[0].group then s[pos..pos + cs[0]]
    else GroupText(s, pos + cs[0], ps[1..], cs[1..])
  }

  /** `m.group(1)` of `re.search(ps, s)`, or None when the search fails. */
  function Capture(s: string, ps: Pattern): Option<string> {
    SearchCorrect(s, ps);
    match Search(s, ps)
    case None => None
    case Some(m) => Some(GroupText(s, m.0, ps, m.1))
  }

  /** Every character of the captured text belongs to the class of the group piece. */
  lemma {:induction false} GroupInClass(s: string, pos: nat, ps: Pattern, cs: seq<nat>, cls: CharClass)
    requires Fits(s, pos, ps, cs)
    requires forall k :: 0 <= k < |ps| && ps[k].group ==> ps[k].cls == cls
    ensures forall k :: 0 <= k < |GroupText(s, pos, ps, cs)| ==> InClass(cls, GroupText(s, pos, ps, cs)[k])
    decreases |ps|
  {
    if ps != [] && !ps[0].group {
      assert forall k :: 0 <= k < |ps[1..]| ==> ps[1..][k] == ps[k + 1];
      GroupInClass(s, pos + cs[0], ps[1..], cs[1..], cls);
    }
  }

  /** A pattern that contains the literal character `c` cannot match a text in which `c` does not occur. */
  lemma {:induction false} MissingCharNoFit(s: string, pos: nat, ps: Pattern, cs: seq<nat>, k: nat, c: char)
    requires c !in s
    requires k < |ps| && ps[k].cls == Exactly(c) && ps[k].rep == Once
    ensures !Fits(s, pos, ps, cs)
    decreases k
  {
    if k == 0 {
      if pos < |s| {
        assert s[pos] != c;
      }
    } else if |cs| > 0 {
      MissingCharNoFit(s, pos + cs[0], ps[1..], cs[1..], k - 1, c);
    }
  }

  /** So `re.search` finds nothing. */
  lemma MissingCharNoCapture(s: string, ps: Pattern, k: nat, c: char)
    requires c !in s
    requires k < |ps| && ps[k].cls == Exactly(c) && ps[k].rep == Once
    ensures Capture(s, ps) == None
  {
    forall i, ds | 0 <= i <= |s| ensures !Fits(s, i, ps, ds) {
      MissingCharNoFit(s, i, ps, ds, k, c);
    }
    SearchCorrect(s, ps);
  }

  /** A match of a pattern that begins with the literal `w` begins with `w`. */
  lemma {:induction false} FitsLiteralPrefix(s: string, pos: nat, w: string, rest: Pattern, cs: seq<nat>)
    requires Fits(s, pos, Literal(w) + rest, cs)
    ensures OccursAt(s, w, pos)
    decreases |w|
  {
    if w != [] {
      assert (Literal(w) + rest)[0] == Piece(Exactly(w[0]), Once, false);
      assert (Literal(w) + rest)[1..] == Literal(w[1..]) + rest;
      FitsLiteralPrefix(s, pos + 1, w[1..], rest, cs[1..]);
      assert w == [w[0]] + w[1..];
    }
  }

  // ---------------------------------------------------------------------------
  // Matches of a concatenation

  /** The number of characters a match with counts `cs` takes. */
  function Sum(cs: seq<nat>): nat {
    if cs == [] then 0 else cs[0] + Sum(cs[1..])
  }

  function Ones(n: nat): seq<nat> {
    seq(n, _ => 1)
  }

  lemma {:induction false} SumOnes(n: nat)
    ensures Sum(Ones(n)) == n
  {
    if n > 0 {
      assert Ones(n)[1..] == Ones(n - 1);
      SumOnes(n - 1);
    }
  }

  /** A match of `p1 + p2` is a match of `p1` followed by a match of `p2` where it ends. */
  lemma {:induction false} FitsConcat(s: string, pos: nat, p1: Pattern, p2: Pattern, cs: seq<nat>)
    requires |cs| == |p1| + |p2|
    ensures Fits(s, pos, p1 + p2, cs) <==>
      Fits(s, pos, p1, cs[..|p1|]) && Fits(s, pos + Sum(cs[..|p1|]), p2, cs[|p1|..])
    decreases |p1|
  {
    if p1 == [] {
      assert p1 + p2 == p2 && cs[..0] == [] && cs[0..] == cs;
      FitsStart(s, pos, p2, cs);
    } else {
      var n := |p1|;
      assert (p1 + p2)[0] == p1[0] && (p1 + p2)[1..] == p1[1..] + p2;
      FitsConcat(s, pos + cs[0], p1[1..], p2, cs[1..]);
      assert cs[..n][0] == cs[0];
      assert cs[..n][1..] == cs[1..][..n - 1];
      assert cs[1..][n - 1..] == cs[n..];
      assert Sum(cs[..n]) == cs[0] + Sum(cs[1..][..n - 1]);
    }
  }

  lemma FitsStart(s: string, pos: nat, ps: Pattern, cs: seq<nat>)
    ensures Fits(s, pos, ps, cs) ==> pos <= |s|
  {
  }

  /** The literal `w` matches at `pos` exactly when it occurs there, one character per piece. */
  lemma {:induction false} FitsLiteral(s: string, pos: nat, w: string, cs: seq<nat>)
    ensures Fits(s, pos, Literal(w), cs) <==> pos <= |s| && cs == Ones(|w|) && OccursAt(s, w, pos)
    decreases |w|
  {
    if w != [] {
      assert Literal(w)[0] == Piece(Exactly(w[0]), Once, false);
      assert Literal(w)[1..] == Literal(w[1..]);
      FitsLiteral(s, pos + 1, w[1..], if cs == [] then [] else cs[1..]);
      assert Ones(|w|)[1..] == Ones(|w| - 1) && Ones(|w|)[0] == 1;
      if cs != [] && cs[0] == 1 && cs[1..] == Ones(|w| - 1) {
        assert cs == [1] + cs[1..];
      }
      if pos + |w| <= |s| {
        assert s[pos..pos + |w|] == [s[pos]] + s[pos + 1..pos + |w|];
      }
      assert w == [w[0]] + w[1..];
    } else {
      assert Literal(w) == [];
    }
  }

  /** Two matches of `p1 + p2` that agree on `p1` are ordered as their parts for `p2` are. */
  lemma {:induction false} PrefersConcat(p1: Pattern, p2: Pattern, cs: seq<nat>, ds: seq<nat>)
    requires |cs| == |p1| + |p2| && |ds| == |p1| + |p2| && cs[..|p1|] == ds[..|p1|]
    ensures Prefers(p1 + p2, cs, ds) <==> Prefers(p2, cs[|p1|..], ds[|p1|..])
    decreases |p1|
  {
    if p1 == [] {
      assert p1 + p2 == p2 && cs[0..] == cs && ds[0..] == ds;
    } else {
      var n := |p1|;
      assert cs[0] == cs[..n][0] == ds[..n][0] == ds[0];
      assert cs[1..][..n - 1] == cs[..n][1..] && ds[1..][..n - 1] == ds[..n][1..];
      assert (p1 + p2)[1..] == p1[1..] + p2;
      PrefersConcat(p1[1..], p2, cs[1..], ds[1..]);
      assert cs[1..][n - 1..] == cs[n..] && ds[1..][n - 1..] == ds[n..];
    }
  }

  /** The group of a match of `p1 + p2`, where `p1` has no group, is the group of its part for `p2`. */
  lemma {:induction false} GroupTextConcat(s: string, pos: nat, p1: Pattern, p2: Pattern, cs: seq<nat>)
    requires forall k :: 0 <= k < |p1| ==> !p1[k].group
    requires |cs| == |p1| + |p2| && Fits(s, pos, p1 + p2, cs)
    ensures FitsConcatParts(s, pos, p1, p2, cs)
    ensures GroupText(s, pos, p1 + p2, cs) == GroupText(s, pos + Sum(cs[..|p1|]), p2, cs[|p1|..])
    decreases |p1|
  {
    FitsConcat(s, pos, p1, p2, cs);
    if p1 == [] {
      assert p1 + p2 == p2 && cs[..0] == [] && cs[0..] == cs;
    } else {
      var n := |p1|;
      assert (p1 + p2)[0] == p1[0] && (p1 + p2)[1..] == p1[1..] + p2;
      GroupTextConcat(s, pos + cs[0], p1[1..], p2, cs[1..]);
      assert cs[..n][1..] == cs[1..][..n - 1];
      assert cs[1..][n - 1..] == cs[n..];
      assert Sum(cs[..n]) == cs[0] + Sum(cs[1..][..n - 1]);
    }
  }

  ghost predicate FitsConcatParts(s: string, pos: nat, p1: Pattern, p2: Pattern, cs: seq<nat>)
    requires |cs| == |p1| + |p2|
  {
    Fits(s, pos + Sum(cs[..|p1|]), p2, cs[|p1|..])
  }

  /** The first match of a pattern decides what `re.search` captures. */
  lemma CaptureOfFirstMatch(s: string, ps: Pattern, i: nat, cs: seq<nat>)
    requires IsFirstMatch(s, ps, 0, i, cs)
    ensures Capture(s, ps) == Some(GroupText(s, i, ps, cs))
  {
    SearchCorrect(s, ps);
    assert Fits(s, i, ps, cs);
    var m := Search(s, ps).value;
    FirstMatchUnique(s, ps, m.0, m.1, i, cs);
  }

  /** Where the literal `w` does not occur, no pattern that begins with `w` matches. */
  lemma NoLiteralNoFit(s: string, pos: nat, w: string, rest: Pattern, cs: seq<nat>)
    requires !OccursAt(s, w, pos)
    ensures !Fits(s, pos, Literal(w) + rest, cs)
  {
    if Fits(s, pos, Literal(w) + rest, cs) {
      FitsLiteralPrefix(s, pos, w, rest, cs);
    }
  }

  /**
   * A pattern `Literal(word) + tail` with no match starting before `i`, where
   * `word` occurs: it captures what the preferred match `es` of `tail` right
   * after that word captures.
   */
  lemma LabelledCapture(s: string, word: string, tail: Pattern, i: nat, es: seq<nat>)
    requires OccursAt(s, word, i)
    requires NoMatchIn(s, Literal(word) + tail, 0, i)
    requires Fits(s, i + |word|, tail, es)
    requires forall fs :: Fits(s, i + |word|, tail, fs) ==> fs == es || Prefers(tail, es, fs)
    ensures Capture(s, Literal(word) + tail) == Some(GroupText(s, i + |word|, tail, es))
  {
    var ps := Literal(word) + tail;
    var cs := Ones(|word|) + es;
    LabelledFits(s, word, tail, i, es);
    forall ds | Fits(s, i, ps, ds) ensures ds == cs || Prefers(ps, cs, ds) {
      LabelledPreferred(s, word, tail, i, es, ds);
    }
    assert IsFirstMatch(s, ps, 0, i, cs);
    CaptureOfFirstMatch(s, ps, i, cs);
    GroupTextConcat(s, i, Literal(word), tail, cs);
    assert cs[..|word|] == Ones(|word|) && cs[|word|..] == es;
    SumOnes(|word|);
  }

  /** The label followed by a match of the tail is a match of the whole pattern. */
  lemma LabelledFits(s: string, word: string, tail: Pattern, i: nat, es: seq<nat>)
    requires OccursAt(s, word, i) && Fits(s, i + |word|, tail, es)
    ensures Fits(s, i, Literal(word) + tail, Ones(|word|) + es)
  {
    var n := |word|;
    var cs := Ones(n) + es;
    assert cs[..n] == Ones(n) && cs[n..] == es;
    SumOnes(n);
    FitsLiteral(s, i, word, Ones(n));
    assert Fits(s, i, Literal(word), cs[..n]);
    assert Fits(s, i + Sum(cs[..n]), tail, cs[n..]);
    FitsConcat(s, i, Literal(word), tail, cs);
  }

  /** Where `word` does not occur from `from` to before `i`, no match of `Literal(word) + tail` starts there. */
  lemma LabelAbsentNoMatch(s: string, word: string, tail: Pattern, from: nat, i: nat)
    requires forall j :: from <= j < i ==> !OccursAt(s, word, j)
    ensures NoMatchIn(s, Literal(word) + tail, from, i)
  {
    forall j, ds | from <= j < i ensures !Fits(s, j, Literal(word) + tail, ds) {
      NoLiteralNoFit(s, j, word, tail, ds);
    }
  }

  /** Where `tail` has no match right after `word` at `j`, no match of `Literal(word) + tail` starts at `j`. */
  lemma TailFailsNoMatch(s: string, word: string, tail: Pattern, j: nat)
    requires NoMatchIn(s, tail, j + |word|, j + |word| + 1)
    ensures NoMatchIn(s, Literal(word) + tail, j, j + 1)
  {
    forall ds ensures !Fits(s, j, Literal(word) + tail, ds) {
      if |ds| == |word| + |tail| {
        FitsConcat(s, j, Literal(word), tail, ds);
        FitsLiteral(s, j, word, ds[..|word|]);
        SumOnes(|word|);
      }
    }
  }

  /** At the label, any match compares with the preferred one as its tail part does. */
  lemma LabelledPreferred(s: string, word: string, tail: Pattern, i: nat, es: seq<nat>, ds: seq<nat>)
    requires |es| == |tail| && OccursAt(s, word, i) && Fits(s, i, Literal(word) + tail, ds)
    requires forall fs :: Fits(s, i + |word|, tail, fs) ==> fs == es || Prefers(tail, es, fs)
    ensures ds == Ones(|word|) + es || Prefers(Literal(word) + tail, Ones(|word|) + es, ds)
  {
    var n := |word|;
    var cs := Ones(n) + es;
    assert cs[..n] == Ones(n) && cs[n..] == es;
    FitsConcat(s, i, Literal(word), tail, ds);
    FitsLiteral(s, i, word, ds[..n]);
    SumOnes(n);
    assert ds == ds[..n] + ds[n..];
    if ds[n..] != es {
      PrefersConcat(Literal(word), tail, cs, ds);
    }
  }

  /** A match of `[p] + rest`: `p` takes `c` characters of its class, `rest` matches after them. */
  lemma FitsIntro(s: string, pos: nat, p: Piece, rest: Pattern, c: nat, cs: seq<nat>)
    requires Allowed(p.rep, c) && pos + c <= |s|
    requires forall k :: pos <= k < pos + c ==> InClass(p.cls, s[k])
    requires Fits(s, pos + c, rest, cs)
    ensures Fits(s, pos, [p] + rest, [c] + cs)
  {
    assert ([p] + rest)[1..] == rest && ([c] + cs)[1..] == cs;
  }

  /** Any match of `[p] + rest` splits into the count of `p` and a match of `rest` after it. */
  lemma FitsCons(s: string, pos: nat, p: Piece, rest: Pattern, cs: seq<nat>)
    requires Fits(s, pos, [p] + rest, cs)
    ensures |cs| == 1 + |rest| && cs == [cs[0]] + cs[1..]
    ensures Allowed(p.rep, cs[0]) && pos + cs[0] <= |s|
    ensures forall k :: pos <= k < pos + cs[0] ==> InClass(p.cls, s[k])
    ensures Fits(s, pos + cs[0], rest, cs[1..])
  {
    assert ([p] + rest)[1..] == rest;
  }

  /** `cs` is preferred at the first piece: a greedy repetition taking more, or a lazy one taking fewer. */
  lemma PrefersHere(p: Piece, rest: Pattern, c: nat, cs: seq<nat>, d: nat, ds: seq<nat>)
    requires |cs| == |rest| && |ds| == |rest|
    requires p.rep.AtLeast? && (if p.rep.greedy then c > d else c < d)
    ensures Prefers([p] + rest, [c] + cs, [d] + ds)
  {
  }

  /** `cs` is preferred after a first piece on which both agree. */
  lemma PrefersLater(p: Piece, rest: Pattern, c: nat, cs: seq<nat>, ds: seq<nat>)
    requires |cs| == |rest| && |ds| == |rest|
    requires Prefers(rest, cs, ds)
    ensures Prefers([p] + rest, [c] + cs, [c] + ds)
  {
    assert ([p] + rest)[1..] == rest && ([c] + cs)[1..] == cs && ([c] + ds)[1..] == ds;
  }

  /** The group of a match of `[p] + rest` where `p` is no group lies in the part for `rest`. */
  lemma GroupTextSkip(s: string, pos: nat, p: Piece, rest: Pattern, c: nat, cs: seq<nat>)
    requires !p.group && Fits(s, pos, [p] + rest, [c] + cs)
    ensures Fits(s, pos + c, rest, cs)
    ensures GroupText(s, pos, [p] + rest, [c] + cs) == GroupText(s, pos + c, rest, cs)
  {
    assert ([p] + rest)[1..] == rest && ([c] + cs)[1..] == cs;
  }

  /** The group of a match of `[p] + rest` where `p` is the group is what `p` takes. */
  lemma GroupTextHere(s: string, pos: nat, p: Piece, rest: Pattern, c: nat, cs: seq<nat>)
    requires p.group && Fits(s, pos, [p] + rest, [c] + cs)
    ensures GroupText(s, pos, [p] + rest, [c] + cs) == s[pos..pos + c]
  {
  }
}
