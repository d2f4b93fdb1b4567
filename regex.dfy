/**
 * The two CSS colour patterns of the library are regular expressions of one shape:
 * anchored at the start with `^`, flag `i`, no end anchor, and a flat sequence of
 * atoms, three of them capture groups of decimal numbers. `RegExp.prototype.exec`
 * runs a backtracking matcher: for each atom it tries the alternatives in the order
 * the pattern writes them and a greedy quantifier longest first, and the first way
 * through the whole pattern is the match. Here `Candidates(a, s, i)` lists, in that
 * order, the numbers of characters atom `a` may consume at position `i`, `Search`
 * walks them depth first, and `Accepts` says which choices of lengths make a match.
 */
module Regex {
  import opened Wrappers
  import opened Js

  /** The largest number the alternation of a capture group admits. */
  datatype Bound = Max100 | Max255 | Max360

  datatype Atom =
    | Char(c: char)        // one character; a letter matches either case (flag i)
    | OptSpace             // \s?
    | OptChar(c: char)     // a non-letter made optional, as in %?
    | CommaSpaces          // [\,\s]*
    | NonDigits            // (?:[^0-9]*)?
    | Group(bound: Bound)  // ([0-9]{1,2}|...) up to 100, 255 or 360

  function MaxOf(b: Bound): nat {
    match b
    case Max100 => 100
    case Max255 => 255
    case Max360 => 360
  }

  /** The three-digit alternatives of a group, after its leading `[0-9]{1,2}`:
      `1[0-9]{2}|2[0-4][0-9]|25[0-5]`, `[1-2][0-9]{2}|3[0-5][0-9]|360` and `100`. */
  predicate ThreeDigitAlternative(b: Bound, x: char, y: char, z: char) {
    match b
    case Max255 =>
      (x == '1' && IsDigit(y) && IsDigit(z)) ||
      (x == '2' && '0' <= y <= '4' && IsDigit(z)) ||
      (x == '2' && y == '5' && '0' <= z <= '5')
    case Max360 =>
      ('1' <= x <= '2' && IsDigit(y) && IsDigit(z)) ||
      (x == '3' && '0' <= y <= '5' && IsDigit(z)) ||
      (x == '3' && y == '6' && z == '0')
    case Max100 =>
      x == '1' && y == '0' && z == '0'
  }

  function Alternative(matches: bool): seq<nat> {
    if matches then [3] else []
  }

  /** The three-digit alternatives, tried one after the other in pattern order. */
  function ThreeDigitCandidates(b: Bound, s: string, i: nat): seq<nat> {
    if i + 3 > |s| then []
    else
      var x, y, z := s[i], s[i + 1], s[i + 2];
      match b
      case Max255 =>
        Alternative(x == '1' && IsDigit(y) && IsDigit(z)) +
        Alternative(x == '2' && '0' <= y <= '4' && IsDigit(z)) +
        Alternative(x == '2' && y == '5' && '0' <= z <= '5')
      case Max360 =>
        Alternative('1' <= x <= '2' && IsDigit(y) && IsDigit(z)) +
        Alternative(x == '3' && '0' <= y <= '5' && IsDigit(z)) +
        Alternative(x == '3' && y == '6' && z == '0')
      case Max100 =>
        Alternative(x == '1' && y == '0' && z == '0')
  }

  lemma ThreeDigitMember(b: Bound, s: string, i: nat)
    ensures forall l <- ThreeDigitCandidates(b, s, i) :: l == 3
    ensures i + 3 <= |s| ==>
      (3 in ThreeDigitCandidates(b, s, i) <==> ThreeDigitAlternative(b, s[i], s[i + 1], s[i + 2]))
  {
  }

  predicate IsStar(a: Atom) {
    a.CommaSpaces? || a.NonDigits?
  }

  /** The characters one iteration of a starred class accepts: `[\,\s]` or `[^0-9]`. */
  predicate InClass(a: Atom, c: char)
    requires IsStar(a)
  {
    if a.CommaSpaces? then c == ',' || IsSpace(c) else !IsDigit(c)
  }

  /** Every character of s[i..j] is one a separator atom may repeat. */
  predicate SepFits(a: Atom, s: string, i: nat, j: nat)
    requires IsStar(a) && i <= j <= |s|
  {
    forall k :: i <= k < j ==> InClass(a, s[k])
  }

  /** The length of the longest run of class characters from i on. */
  function Run(a: Atom, s: string, i: nat): (n: nat)
    requires IsStar(a) && i <= |s|
    ensures i + n <= |s|
    ensures forall k :: i <= k < i + n ==> InClass(a, s[k])
    ensures i + n < |s| ==> !InClass(a, s[i + n])
    decreases |s| - i
  {
    if i < |s| && InClass(a, s[i]) then 1 + Run(a, s, i + 1) else 0
  }

  /** The run from i is at least l long exactly when the l characters from i are all
      class characters. */
  lemma RunFits(a: Atom, s: string, i: nat, l: nat)
    requires IsStar(a) && i + l <= |s|
    ensures l <= Run(a, s, i) <==> SepFits(a, s, i, i + l)
  {
    var n := Run(a, s, i);
    if n < l {
      assert !InClass(a, s[i + n]);
    }
  }

  /** [k, k - 1, ..., 0]: the lengths a greedy star tries, longest first. For
      `(?:[^0-9]*)?` the order is the same as for `[^0-9]*`: the optional group tries
      one iteration first, whose empty match the ECMAScript empty-check rejects, and
      then no iteration, which is the empty match. */
  function Countdown(k: nat): (r: seq<nat>)
    ensures |r| == k + 1 && forall j :: 0 <= j < |r| ==> r[j] == k - j
    ensures forall l: nat :: l in r <==> l <= k
  {
    if k == 0 then [0] else [k] + Countdown(k - 1)
  }

  /** The lengths atom a may consume at position i, in the order the matcher tries them. */
  function Candidates(a: Atom, s: string, i: nat): (ls: seq<nat>)
    requires i <= |s|
    ensures forall k :: 0 <= k < |ls| ==> i + ls[k] <= |s|
  {
    match a
    case Char(c) => if i < |s| && Lower(s[i]) == c then [1] else []
    case OptSpace => if i < |s| && IsSpace(s[i]) then [1, 0] else [0]
    case OptChar(c) => if i < |s| && s[i] == c then [1, 0] else [0]
    case CommaSpaces => Countdown(Run(a, s, i))
    case NonDigits => Countdown(Run(a, s, i))
    case Group(b) =>
      (if i + 1 < |s| && IsDigit(s[i]) && IsDigit(s[i + 1]) then [2, 1]
       else if i < |s| && IsDigit(s[i]) then [1]
       else []) +
      ThreeDigitCandidates(b, s, i)
  }

  /** Atom a can consume exactly l characters at position i: the pattern's meaning,
      regardless of the order in which the matcher tries the lengths. */
  predicate Fits(a: Atom, s: string, i: nat, l: nat)
    requires i <= |s|
  {
    i + l <= |s| &&
    match a
    case Char(c) => l == 1 && Lower(s[i]) == c
    case OptSpace => l == 0 || (l == 1 && IsSpace(s[i]))
    case OptChar(c) => l == 0 || (l == 1 && s[i] == c)
    case CommaSpaces => SepFits(a, s, i, i + l)
    case NonDigits => SepFits(a, s, i, i + l)
    case Group(b) => GroupToken(b, s, i, l)
  }

  /** The l characters of s from i spell a token of a group of bound b. */
  predicate GroupToken(b: Bound, s: string, i: nat, l: nat)
    requires i + l <= |s|
  {
    (l == 1 && IsDigit(s[i])) ||
    (l == 2 && IsDigit(s[i]) && IsDigit(s[i + 1])) ||
    (l == 3 && ThreeDigitAlternative(b, s[i], s[i + 1], s[i + 2]))
  }

  /** GroupToken is IsToken on the slice. */
  lemma GroupTokenSlice(b: Bound, s: string, i: nat, l: nat)
    requires i + l <= |s|
    ensures GroupToken(b, s, i, l) <==> IsToken(b, s[i..i + l])
  {
    var t := s[i..i + l];
    if l == 1 {
      assert t == [s[i]];
    } else if l == 2 {
      assert t == [s[i], s[i + 1]];
    } else if l == 3 {
      assert t[0] == s[i] && t[1] == s[i + 1] && t[2] == s[i + 2];
    }
  }

  /** The candidate lists are exactly the lengths an atom fits. */
  lemma CandidatesFit(a: Atom, s: string, i: nat)
    requires i <= |s|
    ensures forall l: nat :: l in Candidates(a, s, i) <==> Fits(a, s, i, l)
  {
    forall l: nat
      ensures l in Candidates(a, s, i) <==> Fits(a, s, i, l)
    {
      if a.Group? {
        GroupFits(a.bound, s, i, l);
      } else if IsStar(a) && i + l <= |s| {
        RunFits(a, s, i, l);
      }
    }
  }

  lemma GroupFits(b: Bound, s: string, i: nat, l: nat)
    requires i <= |s|
    ensures l in Candidates(Group(b), s, i) <==> Fits(Group(b), s, i, l)
  {
    ThreeDigitMember(b, s, i);
  }

  // ------------------------------------------------------------------ the matcher

  /** Depth-first search for the first way through pattern p from position i: the
      lengths each atom consumes. */
  function Search(p: seq<Atom>, s: string, i: nat): Option<seq<nat>>
    requires i <= |s|
    decreases |p|, 1, 0
  {
    if p == [] then Some([]) else TryEach(p, s, i, Candidates(p[0], s, i))
  }

  /** Try the remaining candidate lengths of the first atom of p, in order. */
  function TryEach(p: seq<Atom>, s: string, i: nat, cs: seq<nat>): Option<seq<nat>>
    requires p != [] && i <= |s| && forall k :: 0 <= k < |cs| ==> i + cs[k] <= |s|
    decreases |p|, 0, |cs|
  {
    if cs == [] then None
    else
      match Search(p[1..], s, i + cs[0])
      case Some(rest) => Some([cs[0]] + rest)
      case None => TryEach(p, s, i, cs[1..])
  }

  /** ls is a way through p from i: each atom consumes a length it fits. */
  predicate Accepts(p: seq<Atom>, s: string, i: nat, ls: seq<nat>)
    requires i <= |s|
    decreases |p|
  {
    |ls| == |p| &&
    (p != [] ==> Fits(p[0], s, i, ls[0]) && Accepts(p[1..], s, i + ls[0], ls[1..]))
  }

  /** The bounds of the capture groups of p, in order. */
  function Groups(p: seq<Atom>): seq<Bound> {
    if p == [] then [] else (if p[0].Group? then [p[0].bound] else []) + Groups(p[1..])
  }

  /** The text each capture group of p took in the way ls through s from i. (Along a
      way that Accepts, no slice end ever needs the clipping to s.) */
  function Captures(p: seq<Atom>, s: string, i: nat, ls: seq<nat>): seq<string>
    requires |ls| == |p|
    decreases |p|
  {
    if p == [] then []
    else (if p[0].Group? then [Clip(s, i, ls[0])] else []) + Captures(p[1..], s, i + ls[0], ls[1..])
  }

  /** The l characters of s from i, clipped to s. */
  function Clip(s: string, i: nat, l: nat): string {
    s[Min(i, |s|)..Min(i + l, |s|)]
  }

  lemma ClipSlice(s: string, i: nat, j: nat)
    requires i <= j <= |s|
    ensures Clip(s, i, j - i) == s[i..j]
  {
  }

  /** A whole number a capture group of bound b can take: one or two digits, or one of
      its three-digit alternatives. */
  predicate IsToken(b: Bound, t: string) {
    (1 <= |t| <= 2 && forall c <- t :: IsDigit(c)) ||
    (|t| == 3 && ThreeDigitAlternative(b, t[0], t[1], t[2]))
  }

  /** `pattern.exec(s)` for a pattern anchored with `^`: the captures of the first
      match, or None (exec's null). */
  function Exec(p: seq<Atom>, s: string): (r: Option<seq<string>>)
    ensures r.Some? <==> exists ls :: Accepts(p, s, 0, ls)
    ensures r.Some? ==> |r.value| == |Groups(p)|
    ensures r.Some? ==> forall k :: 0 <= k < |r.value| ==> IsToken(Groups(p)[k], r.value[k])
    ensures r.Some? ==> exists ls: seq<nat> :: Accepts(p, s, 0, ls) && r.value == Captures(p, s, 0, ls)
  {
    SearchSound(p, s, 0);
    match Search(p, s, 0)
    case None =>
      NoneMeansNoMatch(p, s);
      None
    case Some(ls) =>
      CapturesAreTokens(p, s, 0, ls);
      MatchWitness(p, s, ls);
      Some(Captures(p, s, 0, ls))
  }

  // ------------------------------------------------------------------ the matcher is right

  /** What the search finds is a way through the pattern. */
  lemma {:induction false} SearchSound(p: seq<Atom>, s: string, i: nat)
    requires i <= |s|
    ensures Search(p, s, i).Some? ==> Accepts(p, s, i, Search(p, s, i).value)
    decreases |p|, 1, 0
  {
    if p != [] {
      CandidatesFit(p[0], s, i);
      TryEachSound(p, s, i, Candidates(p[0], s, i));
    }
  }

  lemma {:induction false} TryEachSound(p: seq<Atom>, s: string, i: nat, cs: seq<nat>)
    requires p != [] && i <= |s| && forall k :: 0 <= k < |cs| ==> i + cs[k] <= |s|
    requires forall l <- cs :: Fits(p[0], s, i, l)
    ensures TryEach(p, s, i, cs).Some? ==>
      Accepts(p, s, i, TryEach(p, s, i, cs).value)
    decreases |p|, 0, |cs|
  {
    if cs != [] {
      SearchSound(p[1..], s, i + cs[0]);
      match Search(p[1..], s, i + cs[0])
      case Some(rest) =>
        var ls := [cs[0]] + rest;
        assert ls[1..] == rest;
      case None =>
        TryEachSound(p, s, i, cs[1..]);
    }
  }

  /** If there is any way through the pattern, the search finds one. */
  lemma {:induction false} SearchComplete(p: seq<Atom>, s: string, i: nat, ls: seq<nat>)
    requires i <= |s| && Accepts(p, s, i, ls)
    ensures Search(p, s, i).Some?
    decreases |p|, 1, 0
  {
    if p != [] {
      CandidatesFit(p[0], s, i);
      TryEachComplete(p, s, i, Candidates(p[0], s, i), ls);
    }
  }

  lemma {:induction false} TryEachComplete(p: seq<Atom>, s: string, i: nat, cs: seq<nat>, ls: seq<nat>)
    requires p != [] && i <= |s| && forall k :: 0 <= k < |cs| ==> i + cs[k] <= |s|
    requires |ls| == |p| && ls[0] in cs && i + ls[0] <= |s|
    requires Accepts(p[1..], s, i + ls[0], ls[1..])
    ensures TryEach(p, s, i, cs).Some?
    decreases |p|, 0, |cs|
  {
    assert cs != [];
    if cs[0] == ls[0] {
      SearchComplete(p[1..], s, i + ls[0], ls[1..]);
      TryEachFirst(p, s, i, cs);
    } else {
      assert ls[0] in cs[1..] by {
        assert cs == [cs[0]] + cs[1..];
      }
      TryEachComplete(p, s, i, cs[1..], ls);
      TryEachFirst(p, s, i, cs);
    }
  }

  /** TryEach takes the first candidate if the rest of the pattern matches after it,
      and otherwise moves on to the next. */
  lemma TryEachFirst(p: seq<Atom>, s: string, i: nat, cs: seq<nat>)
    requires p != [] && i <= |s| && forall k :: 0 <= k < |cs| ==> i + cs[k] <= |s|
    requires cs != []
    ensures Search(p[1..], s, i + cs[0]).Some? ==> TryEach(p, s, i, cs).Some?
    ensures Search(p[1..], s, i + cs[0]).None? ==> TryEach(p, s, i, cs) == TryEach(p, s, i, cs[1..])
  {
  }

  lemma NoneMeansNoMatch(p: seq<Atom>, s: string)
    requires Search(p, s, 0).None?
    ensures !exists ls :: Accepts(p, s, 0, ls)
  {
    if ls :| Accepts(p, s, 0, ls) {
      SearchComplete(p, s, 0, ls);
    }
  }

  lemma MatchWitness(p: seq<Atom>, s: string, ls: seq<nat>)
    requires Accepts(p, s, 0, ls)
    ensures exists w :: Accepts(p, s, 0, w)
    ensures exists w: seq<nat> :: Accepts(p, s, 0, w) && Captures(p, s, 0, ls) == Captures(p, s, 0, w)
  {
  }

  // ------------------------------------------------------------------ captures

  lemma {:induction false} CapturesAreTokens(p: seq<Atom>, s: string, i: nat, ls: seq<nat>)
    requires i <= |s| && Accepts(p, s, i, ls)
    ensures |Captures(p, s, i, ls)| == |Groups(p)|
    ensures forall k :: 0 <= k < |Groups(p)| ==> IsToken(Groups(p)[k], Captures(p, s, i, ls)[k])
    decreases |p|
  {
    if p != [] {
      var j := AcceptsTail(p, s, i, ls);
      CapturesAreTokens(p[1..], s, j, ls[1..]);
      var gs, cs := Groups(p[1..]), Captures(p[1..], s, j, ls[1..]);
      if p[0].Group? {
        HeadToken(p, s, i, ls);
        assert Groups(p) == [p[0].bound] + gs;
        assert Captures(p, s, i, ls) == [Clip(s, i, ls[0])] + cs;
      } else {
        assert Groups(p) == gs;
        assert Captures(p, s, i, ls) == cs;
      }
    }
  }

  /** The rest of a pattern is accepted where its first atom stops. */
  lemma AcceptsTail(p: seq<Atom>, s: string, i: nat, ls: seq<nat>) returns (j: nat)
    requires p != [] && i <= |s| && Accepts(p, s, i, ls)
    ensures j == i + ls[0] && j <= |s| && Accepts(p[1..], s, j, ls[1..])
  {
    j := i + ls[0];
  }

  /** The text a leading group takes is a token of its bound. */
  lemma HeadToken(p: seq<Atom>, s: string, i: nat, ls: seq<nat>)
    requires p != [] && p[0].Group? && i <= |s| && Accepts(p, s, i, ls)
    ensures IsToken(p[0].bound, Clip(s, i, ls[0]))
  {
    GroupTokenSlice(p[0].bound, s, i, ls[0]);
    assert Clip(s, i, ls[0]) == s[i..i + ls[0]];
  }

  predicate IsDecimal(t: string) {
    forall c <- t :: IsDigit(c)
  }

  /** `+token`: the number a capture reads as. */
  function TokenValue(t: string): nat
    requires IsDecimal(t)
  {
    ValueOf(t, 10)
  }

  /** A token never exceeds its group's bound. */
  lemma TokenInRange(b: Bound, t: string)
    requires IsToken(b, t)
    ensures IsDecimal(t) && TokenValue(t) <= MaxOf(b)
  {
    if |t| <= 2 {
      ValueOfShort(t, 10);
      assert t[0] in t;
      if |t| == 2 {
        assert t[1] in t;
      }
    } else {
      assert forall c <- t :: c == t[0] || c == t[1] || c == t[2];
      ValueOfShort(t, 10);
    }
  }

  // ------------------------------------------------------------------ layouts

  predicate AllDigits(s: string, i: nat, j: nat)
    requires i <= j <= |s|
  {
    forall k :: i <= k < j ==> IsDigit(s[k])
  }

  predicate NoDigits(s: string, i: nat, j: nat)
    requires i <= j <= |s|
  {
    forall k :: i <= k < j ==> !IsDigit(s[k])
  }

  /** A run of decimal digits placed at s[i..j]. */
  lemma DigitsAt(s: string, i: nat, j: nat, t: string)
    requires i <= j <= |s| && s[i..j] == t && IsDecimal(t)
    ensures AllDigits(s, i, j)
  {
    assert forall k :: i <= k < j ==> s[k] == t[k - i];
  }

  /** Text between two numbers: no digit and no closing parenthesis. */
  predicate Gap(s: string, i: nat, j: nat)
    requires i <= j <= |s|
  {
    forall k :: i <= k < j ==> !IsDigit(s[k]) && s[k] != ')'
  }


  /** From x0 on, s holds three runs of digits, s[x0..x1], s[y0..y1] and s[z0..z1],
      separated by gaps, and a non-digit follows the last. */
  predicate ThreeRuns(s: string, x0: nat, x1: nat, y0: nat, y1: nat, z0: nat, z1: nat) {
    x0 < x1 < y0 < y1 < z0 < z1 < |s| &&
    AllDigits(s, x0, x1) && Gap(s, x1, y0) && AllDigits(s, y0, y1) &&
    Gap(s, y1, z0) && AllDigits(s, z0, z1) && !IsDigit(s[z1])
  }

  /** The tail of a colour pattern after its last group: optional spaces and optional
      non-digit characters, then `\)`. */
  predicate EndShape(e: seq<Atom>) {
    |e| >= 1 && e[|e| - 1] == Char(')') &&
    forall k :: 0 <= k < |e| - 1 ==> e[k] == OptSpace || (e[k].OptChar? && !IsDigit(e[k].c))
  }

  /** The body of a colour pattern: group, separator, group, separator, group, tail. */
  function Body(b1: Bound, sa: Atom, b2: Bound, sb: Atom, b3: Bound, e: seq<Atom>): seq<Atom> {
    [Group(b1)] + ([sa] + ([Group(b2)] + ([sb] + ([Group(b3)] + e))))
  }

  /** The first step of a way through a pattern [a] + rest. */
  lemma HeadStep(a: Atom, rest: seq<Atom>, s: string, i: nat, ls: seq<nat>)
    requires i <= |s| && Accepts([a] + rest, s, i, ls)
    ensures |ls| == 1 + |rest| && Fits(a, s, i, ls[0])
    ensures Accepts(rest, s, i + ls[0], ls[1..])
  {
    assert ([a] + rest)[1..] == rest;
  }

  /** A step backwards along a way through a pattern [a] + rest. */
  lemma HeadCons(a: Atom, rest: seq<Atom>, s: string, i: nat, l: nat, ls: seq<nat>)
    requires i + l <= |s| && Fits(a, s, i, l) && Accepts(rest, s, i + l, ls)
    ensures Accepts([a] + rest, s, i, [l] + ls)
  {
    assert ([a] + rest)[1..] == rest;
    assert ([l] + ls)[1..] == ls;
  }

  /** A match of p from i: its first atom, then the rest of p from where that ends. */
  lemma AcceptsCons(p: seq<Atom>, s: string, i: nat, j: nat, ls: seq<nat>)
    requires p != [] && |ls| == |p| && j == i + ls[0] && j <= |s| && Fits(p[0], s, i, ls[0])
    requires Accepts(p[1..], s, j, ls[1..])
    ensures Accepts(p, s, i, ls)
  {
  }

  /** A group consumes one to three digits. */
  lemma GroupSpan(b: Bound, s: string, i: nat, l: nat)
    requires i <= |s| && Fits(Group(b), s, i, l)
    ensures 1 <= l <= 3 && i + l <= |s| && AllDigits(s, i, i + l)
  {
  }

  /** A separator consumes no digit. */
  lemma StarSpan(a: Atom, s: string, i: nat, l: nat)
    requires IsStar(a) && i <= |s| && Fits(a, s, i, l)
    ensures i + l <= |s| && NoDigits(s, i, i + l)
  {
  }

  /** A tail that matches reaches a ')' through non-digits. */
  lemma {:induction false} EndReaches(e: seq<Atom>, s: string, i: nat, ls: seq<nat>) returns (j: nat)
    requires EndShape(e) && i <= |s| && Accepts(e, s, i, ls)
    ensures i <= j < |s| && s[j] == ')' && NoDigits(s, i, j)
    decreases |e|
  {
    if |e| == 1 {
      j := i;
    } else {
      assert e[0] == OptSpace || (e[0].OptChar? && !IsDigit(e[0].c));
      var e' := e[1..];
      assert e'[|e'| - 1] == e[|e| - 1];
      assert forall k :: 0 <= k < |e'| - 1 ==> e'[k] == e[k + 1];
      j := EndReaches(e', s, i + ls[0], ls[1..]);
    }
  }

  /** A tail has no capture group. */
  lemma {:induction false} EndCaptures(e: seq<Atom>, s: string, i: nat, ls: seq<nat>)
    requires EndShape(e) && |ls| == |e|
    ensures Captures(e, s, i, ls) == []
    decreases |e|
  {
    if |e| > 1 {
      var e' := e[1..];
      assert e'[|e'| - 1] == e[|e| - 1];
      assert forall k :: 0 <= k < |e'| - 1 ==> e'[k] == e[k + 1];
      EndCaptures(e', s, i + ls[0], ls[1..]);
    }
  }

  /** The captures of a pattern [a] + rest, one atom at a time. */
  lemma CapturesHead(a: Atom, rest: seq<Atom>, s: string, i: nat, ls: seq<nat>)
    requires |ls| == 1 + |rest|
    ensures Captures([a] + rest, s, i, ls) ==
      (if a.Group? then [Clip(s, i, ls[0])] else []) + Captures(rest, s, i + ls[0], ls[1..])
  {
    assert ([a] + rest)[1..] == rest;
  }

  /** The captures of a body are the texts of its three groups. */
  lemma BodyCaptures(b1: Bound, sa: Atom, b2: Bound, sb: Atom, b3: Bound, e: seq<Atom>,
                     s: string, x0: nat, ls: seq<nat>)
    requires !sa.Group? && !sb.Group? && EndShape(e) && |ls| == 5 + |e|
    ensures var p1 := x0 + ls[0]; var p2 := p1 + ls[1]; var p3 := p2 + ls[2];
            var p4 := p3 + ls[3];
            Captures(Body(b1, sa, b2, sb, b3, e), s, x0, ls) ==
            [Clip(s, x0, ls[0]), Clip(s, p2, ls[2]), Clip(s, p4, ls[4])]
  {
    var q2 := [Group(b2)] + ([sb] + ([Group(b3)] + e));
    var q1 := [sa] + q2;
    var l1 := ls[1..];
    var l2 := l1[1..];
    var p1 := x0 + ls[0];
    var p2 := p1 + l1[0];
    CapturesHead(Group(b1), q1, s, x0, ls);
    CapturesHead(sa, q2, s, p1, l1);
    LastTwoCaptures(b2, sb, b3, e, s, p2, l2);
  }

  /** The captures of the second half of a body: its last two groups. */
  lemma LastTwoCaptures(b2: Bound, sb: Atom, b3: Bound, e: seq<Atom>, s: string, p2: nat, l2: seq<nat>)
    requires !sb.Group? && EndShape(e) && |l2| == 3 + |e|
    ensures Captures([Group(b2)] + ([sb] + ([Group(b3)] + e)), s, p2, l2) ==
            [Clip(s, p2, l2[0]), Clip(s, p2 + l2[0] + l2[1], l2[2])]
  {
    var l3 := l2[1..];
    CapturesHead(Group(b2), [sb] + ([Group(b3)] + e), s, p2, l2);
    SepThenLast(sb, b3, e, s, p2 + l2[0], l3);
  }

  /** The captures of a separator, a group and the tail: the group's text. */
  lemma SepThenLast(sb: Atom, b3: Bound, e: seq<Atom>, s: string, p3: nat, l3: seq<nat>)
    requires !sb.Group? && EndShape(e) && |l3| == 2 + |e|
    ensures Captures([sb] + ([Group(b3)] + e), s, p3, l3) == [Clip(s, p3 + l3[0], l3[1])]
  {
    CapturesHead(sb, [Group(b3)] + e, s, p3, l3);
    LastCapture(b3, e, s, p3 + l3[0], l3[1..]);
  }

  /** The captures of a group and the tail: the group's text. */
  lemma LastCapture(b3: Bound, e: seq<Atom>, s: string, p4: nat, l4: seq<nat>)
    requires EndShape(e) && |l4| == 1 + |e|
    ensures Captures([Group(b3)] + e, s, p4, l4) == [Clip(s, p4, l4[0])]
  {
    CapturesHead(Group(b3), e, s, p4, l4);
    EndCaptures(e, s, p4 + l4[0], l4[1..]);
  }

  lemma BodyCapturesAt(b1: Bound, sa: Atom, b2: Bound, sb: Atom, b3: Bound, e: seq<Atom>,
                       s: string, ls: seq<nat>, x0: nat, x1: nat, y0: nat, y1: nat, z0: nat, z1: nat)
    requires !sa.Group? && !sb.Group? && EndShape(e) && |ls| == 5 + |e|
    requires x0 <= x1 <= y0 <= y1 <= z0 <= z1 <= |s|
    requires ls[0] == x1 - x0 && ls[1] == y0 - x1 && ls[2] == y1 - y0
    requires ls[3] == z0 - y1 && ls[4] == z1 - z0
    ensures Captures(Body(b1, sa, b2, sb, b3, e), s, x0, ls) == [s[x0..x1], s[y0..y1], s[z0..z1]]
  {
    BodyCaptures(b1, sa, b2, sb, b3, e, s, x0, ls);
    ClipSlice(s, x0, x1);
    ClipSlice(s, y0, y1);
    ClipSlice(s, z0, z1);
  }

  /** The first two steps of a way through a pattern that starts with a group and a
      separator. */
  lemma PairStep(b: Bound, sa: Atom, r: seq<Atom>, s: string, i: nat, ls: seq<nat>)
    returns (p1: nat, p2: nat)
    requires i <= |s| && Accepts([Group(b)] + ([sa] + r), s, i, ls)
    ensures |ls| == 2 + |r| && p1 == i + ls[0] && p2 == p1 + ls[1] && p2 <= |s|
    ensures Fits(Group(b), s, i, ls[0]) && Fits(sa, s, p1, ls[1])
    ensures Accepts(r, s, p2, ls[2..])
  {
    HeadStep(Group(b), [sa] + r, s, i, ls);
    p1 := i + ls[0];
    HeadStep(sa, r, s, p1, ls[1..]);
    p2 := p1 + ls[1];
    assert ls[1..][1..] == ls[2..];
  }

  /** Two steps backwards along a way through a pattern that starts with a group and
      a separator. */
  lemma PairCons(b: Bound, sa: Atom, r: seq<Atom>, s: string, i: nat, j: nat, k: nat, rest: seq<nat>)
    returns (ls: seq<nat>)
    requires i <= j <= k <= |s| && Fits(Group(b), s, i, j - i) && Fits(sa, s, j, k - j)
    requires Accepts(r, s, k, rest)
    ensures ls == [j - i] + ([k - j] + rest) && Accepts([Group(b)] + ([sa] + r), s, i, ls)
  {
    var q, lq := [sa] + r, [k - j] + rest;
    HeadCons(sa, r, s, j, k - j, rest);
    HeadCons(Group(b), q, s, i, j - i, lq);
    ls := [j - i] + lq;
  }

  /** The five steps of a way through a body, one atom at a time: the positions
      where each atom ends. */
  lemma BodySteps(b1: Bound, sa: Atom, b2: Bound, sb: Atom, b3: Bound, e: seq<Atom>,
                  s: string, x0: nat, ls: seq<nat>)
    returns (p1: nat, p2: nat, p3: nat, p4: nat, p5: nat)
    requires x0 <= |s| && Accepts(Body(b1, sa, b2, sb, b3, e), s, x0, ls)
    ensures |ls| == 5 + |e| && p5 <= |s|
    ensures p1 == x0 + ls[0] && p2 == p1 + ls[1] && p3 == p2 + ls[2]
    ensures p4 == p3 + ls[3] && p5 == p4 + ls[4]
    ensures Fits(Group(b1), s, x0, ls[0]) && Fits(sa, s, p1, ls[1])
    ensures Fits(Group(b2), s, p2, ls[2]) && Fits(sb, s, p3, ls[3])
    ensures Fits(Group(b3), s, p4, ls[4])
    ensures Accepts(e, s, p5, ls[5..])
  {
    var r := [Group(b3)] + e;
    p1, p2 := PairStep(b1, sa, [Group(b2)] + ([sb] + r), s, x0, ls);
    var l2 := ls[2..];
    p3, p4 := PairStep(b2, sb, r, s, p2, l2);
    var l4 := l2[2..];
    HeadStep(Group(b3), e, s, p4, l4);
    p5 := p4 + l4[0];
    assert l4[1..] == ls[5..];
  }

  /** Where the atoms of a body can end over three separated runs of digits: if the
      groups take digits, the separators take non-digits and a ')' follows p5 through
      non-digits, then each group takes a whole run and each separator a whole gap. */
  lemma Positions(s: string, x0: nat, x1: nat, y0: nat, y1: nat, z0: nat, z1: nat,
                  p1: nat, p2: nat, p3: nat, p4: nat, p5: nat, j: nat)
    requires ThreeRuns(s, x0, x1, y0, y1, z0, z1)
    requires x0 < p1 <= p2 < p3 <= p4 < p5 <= j < |s|
    requires AllDigits(s, x0, p1) && NoDigits(s, p1, p2) && AllDigits(s, p2, p3)
    requires NoDigits(s, p3, p4) && AllDigits(s, p4, p5)
    requires s[j] == ')' && NoDigits(s, p5, j)
    ensures p1 == x1 && p2 == y0 && p3 == y1 && p4 == z0 && p5 == z1
  {
    // no atom reaches past the run or gap it starts in
    assert p1 <= x1 by {
      assert !IsDigit(s[x1]);
    }
    assert p2 <= y0 by {
      assert IsDigit(s[y0]);
    }
    assert p3 <= y1 by {
      assert !IsDigit(s[y1]);
    }
    assert p4 <= z0 by {
      assert IsDigit(s[z0]);
    }
    assert p5 <= z1 by {
      assert !IsDigit(s[z1]);
    }
    // the tail needs a ')' that no digit precedes, and there is none before z1
    assert z1 <= p5 by {
      assert IsDigit(s[y0]) && IsDigit(s[z0]) && s[j] == ')';
      assert IsDigit(s[p5]) || !IsDigit(s[p5]);
    }
    // so each atom ends where its run or gap ends
    assert p4 == z0 by {
      assert !IsDigit(s[z0 - 1]);
    }
    assert p3 == y1 by {
      assert IsDigit(s[y1 - 1]);
    }
    assert p2 == y0 by {
      assert !IsDigit(s[y0 - 1]);
    }
    assert p1 == x1 by {
      assert IsDigit(s[x1 - 1]);
    }
  }

  /** Over three separated runs of digits, a way through a body has exactly one
      choice for the groups and separators: each group takes a whole run and each
      separator a whole gap. */
  lemma BodyPositions(b1: Bound, sa: Atom, b2: Bound, sb: Atom, b3: Bound, e: seq<Atom>,
                      s: string, ls: seq<nat>, x0: nat, x1: nat, y0: nat, y1: nat, z0: nat, z1: nat)
    requires IsStar(sa) && IsStar(sb) && EndShape(e)
    requires ThreeRuns(s, x0, x1, y0, y1, z0, z1)
    requires Accepts(Body(b1, sa, b2, sb, b3, e), s, x0, ls)
    ensures |ls| == 5 + |e|
    ensures ls[0] == x1 - x0 && ls[1] == y0 - x1 && ls[2] == y1 - y0
    ensures ls[3] == z0 - y1 && ls[4] == z1 - z0
    ensures GroupToken(b1, s, x0, x1 - x0) && GroupToken(b2, s, y0, y1 - y0) && GroupToken(b3, s, z0, z1 - z0)
    ensures SepFits(sa, s, x1, y0) && SepFits(sb, s, y1, z0)
    ensures Accepts(e, s, z1, ls[5..])
  {
    var p1, p2, p3, p4, p5 := BodySteps(b1, sa, b2, sb, b3, e, s, x0, ls);
    GroupSpan(b1, s, x0, ls[0]);
    StarSpan(sa, s, p1, ls[1]);
    GroupSpan(b2, s, p2, ls[2]);
    StarSpan(sb, s, p3, ls[3]);
    GroupSpan(b3, s, p4, ls[4]);
    var j := EndReaches(e, s, p5, ls[5..]);
    Positions(s, x0, x1, y0, y1, z0, z1, p1, p2, p3, p4, p5, j);
  }
  /** So the captures of an accepted body are the three runs. */
  lemma BodyLayout(b1: Bound, sa: Atom, b2: Bound, sb: Atom, b3: Bound, e: seq<Atom>,
                   s: string, ls: seq<nat>, x0: nat, x1: nat, y0: nat, y1: nat, z0: nat, z1: nat)
    requires IsStar(sa) && IsStar(sb) && EndShape(e)
    requires ThreeRuns(s, x0, x1, y0, y1, z0, z1)
    requires Accepts(Body(b1, sa, b2, sb, b3, e), s, x0, ls)
    ensures |ls| == 5 + |e|
    ensures ls[0] == x1 - x0 && ls[1] == y0 - x1 && ls[2] == y1 - y0
    ensures ls[3] == z0 - y1 && ls[4] == z1 - z0
    ensures Accepts(e, s, z1, ls[5..])
    ensures Captures(Body(b1, sa, b2, sb, b3, e), s, x0, ls) == [s[x0..x1], s[y0..y1], s[z0..z1]]
  {
    BodyPositions(b1, sa, b2, sb, b3, e, s, ls, x0, x1, y0, y1, z0, z1);
    BodyCapturesAt(b1, sa, b2, sb, b3, e, s, ls, x0, x1, y0, y1, z0, z1);
  }
  /** What a body needs of the text around three separated runs of digits:
      each run is a token of its group, each gap is made of its separator's
      characters, and the tail matches after the last run. */
  ghost predicate BodyFits(b1: Bound, sa: Atom, b2: Bound, sb: Atom, b3: Bound, e: seq<Atom>,
                           s: string, x0: nat, x1: nat, y0: nat, y1: nat, z0: nat, z1: nat)
    requires IsStar(sa) && IsStar(sb) && x0 <= x1 <= y0 <= y1 <= z0 <= z1 <= |s|
  {
    IsToken(b1, s[x0..x1]) && SepFits(sa, s, x1, y0) && IsToken(b2, s[y0..y1]) &&
    SepFits(sb, s, y1, z0) && IsToken(b3, s[z0..z1]) && (exists le: seq<nat> :: Accepts(e, s, z1, le))
  }

  /** Over three separated runs of digits, a body matches if and only if the runs and
      gaps meet BodyFits. */
  lemma BodyMatch(b1: Bound, sa: Atom, b2: Bound, sb: Atom, b3: Bound, e: seq<Atom>,
                  s: string, x0: nat, x1: nat, y0: nat, y1: nat, z0: nat, z1: nat)
    requires IsStar(sa) && IsStar(sb) && EndShape(e)
    requires ThreeRuns(s, x0, x1, y0, y1, z0, z1)
    ensures (exists ls: seq<nat> :: Accepts(Body(b1, sa, b2, sb, b3, e), s, x0, ls)) <==>
      BodyFits(b1, sa, b2, sb, b3, e, s, x0, x1, y0, y1, z0, z1)
  {
    if ls: seq<nat> :| Accepts(Body(b1, sa, b2, sb, b3, e), s, x0, ls) {
      BodyMatchOnlyIf(b1, sa, b2, sb, b3, e, s, ls, x0, x1, y0, y1, z0, z1);
    }
    if BodyFits(b1, sa, b2, sb, b3, e, s, x0, x1, y0, y1, z0, z1) {
      var ls := BodyMatchIf(b1, sa, b2, sb, b3, e, s, x0, x1, y0, y1, z0, z1);
      assert exists w: seq<nat> :: Accepts(Body(b1, sa, b2, sb, b3, e), s, x0, w);
    }
  }

  lemma BodyMatchIf(b1: Bound, sa: Atom, b2: Bound, sb: Atom, b3: Bound, e: seq<Atom>,
                    s: string, x0: nat, x1: nat, y0: nat, y1: nat, z0: nat, z1: nat)
    returns (ls: seq<nat>)
    requires IsStar(sa) && IsStar(sb) && ThreeRuns(s, x0, x1, y0, y1, z0, z1)
    requires BodyFits(b1, sa, b2, sb, b3, e, s, x0, x1, y0, y1, z0, z1)
    ensures Accepts(Body(b1, sa, b2, sb, b3, e), s, x0, ls)
  {
    GroupTokenSlice(b1, s, x0, x1 - x0);
    GroupTokenSlice(b2, s, y0, y1 - y0);
    GroupTokenSlice(b3, s, z0, z1 - z0);
    var le: seq<nat> :| Accepts(e, s, z1, le);
    ls := BodyBuild(b1, sa, b2, sb, b3, e, s, x0, x1, y0, y1, z0, z1, le);
  }

  lemma BodyMatchOnlyIf(b1: Bound, sa: Atom, b2: Bound, sb: Atom, b3: Bound, e: seq<Atom>,
                        s: string, ls: seq<nat>, x0: nat, x1: nat, y0: nat, y1: nat, z0: nat, z1: nat)
    requires IsStar(sa) && IsStar(sb) && EndShape(e)
    requires ThreeRuns(s, x0, x1, y0, y1, z0, z1)
    requires Accepts(Body(b1, sa, b2, sb, b3, e), s, x0, ls)
    ensures BodyFits(b1, sa, b2, sb, b3, e, s, x0, x1, y0, y1, z0, z1)
  {
    BodyPositions(b1, sa, b2, sb, b3, e, s, ls, x0, x1, y0, y1, z0, z1);
    GroupTokenSlice(b1, s, x0, x1 - x0);
    GroupTokenSlice(b2, s, y0, y1 - y0);
    GroupTokenSlice(b3, s, z0, z1 - z0);
  }

  /** Five lengths the atoms of a body accept, followed by a way through the tail,
      make a way through the body. */
  lemma BodyBuild(b1: Bound, sa: Atom, b2: Bound, sb: Atom, b3: Bound, e: seq<Atom>,
                  s: string, x0: nat, x1: nat, y0: nat, y1: nat, z0: nat, z1: nat, le: seq<nat>)
    returns (ls: seq<nat>)
    requires x0 <= x1 <= y0 <= y1 <= z0 <= z1 <= |s|
    requires Fits(Group(b1), s, x0, x1 - x0) && Fits(sa, s, x1, y0 - x1)
    requires Fits(Group(b2), s, y0, y1 - y0) && Fits(sb, s, y1, z0 - y1)
    requires Fits(Group(b3), s, z0, z1 - z0)
    requires Accepts(e, s, z1, le)
    ensures Accepts(Body(b1, sa, b2, sb, b3, e), s, x0, ls)
  {
    var r := [Group(b3)] + e;
    var l4 := [z1 - z0] + le;
    HeadCons(Group(b3), e, s, z0, z1 - z0, le);
    var l2 := PairCons(b2, sb, r, s, y0, y1, z0, l4);
    ls := PairCons(b1, sa, [Group(b2)] + ([sb] + r), s, x0, x1, y0, l2);
  }

  // ------------------------------------------------------------------ patterns in two parts

  /** The number of characters a way through a pattern consumes. */
  function Total(ls: seq<nat>): nat {
    if ls == [] then 0 else ls[0] + Total(ls[1..])
  }

  /** A way through p1 + p2 is a way through p1 followed by a way through p2 from
      where the first ends. */
  lemma {:induction false} AcceptsConcat(p1: seq<Atom>, p2: seq<Atom>, s: string, i: nat, ls: seq<nat>)
    requires i <= |s| && |ls| == |p1| + |p2|
    ensures Accepts(p1 + p2, s, i, ls) <==>
      Accepts(p1, s, i, ls[..|p1|]) && i + Total(ls[..|p1|]) <= |s| &&
      Accepts(p2, s, i + Total(ls[..|p1|]), ls[|p1|..])
    decreases |p1|
  {
    if p1 == [] {
      assert p1 + p2 == p2;
      assert ls[..0] == [] && ls[0..] == ls;
    } else {
      var q := p1 + p2;
      var h := ls[..|p1|];
      assert q[0] == p1[0] && q[1..] == p1[1..] + p2;
      assert h[0] == ls[0] && h[1..] == ls[1..][..|p1| - 1];
      assert ls[1..][|p1| - 1..] == ls[|p1|..];
      if Fits(p1[0], s, i, ls[0]) {
        AcceptsConcat(p1[1..], p2, s, i + ls[0], ls[1..]);
      }
    }
  }

  /** The captures of a way through p1 + p2 are those of its two parts, in order. */
  lemma {:induction false} CapturesConcat(p1: seq<Atom>, p2: seq<Atom>, s: string, i: nat, ls: seq<nat>)
    requires |ls| == |p1| + |p2|
    ensures Captures(p1 + p2, s, i, ls) ==
      Captures(p1, s, i, ls[..|p1|]) + Captures(p2, s, i + Total(ls[..|p1|]), ls[|p1|..])
    decreases |p1|
  {
    if p1 == [] {
      assert p1 + p2 == p2;
      assert ls[..0] == [] && ls[0..] == ls;
    } else {
      var q := p1 + p2;
      var h := ls[..|p1|];
      var r1, l1, j := p1[1..], ls[1..], i + ls[0];
      var h1 := l1[..|r1|];
      assert q[0] == p1[0] && q[1..] == r1 + p2;
      assert h[0] == ls[0] && h[1..] == h1;
      assert l1[|r1|..] == ls[|p1|..];
      CapturesConcat(r1, p2, s, j, l1);
      var first := if p1[0].Group? then [Clip(s, i, ls[0])] else [];
      var c1 := Captures(r1, s, j, h1);
      var c2 := Captures(p2, s, j + Total(h1), ls[|p1|..]);
      assert Captures(q, s, i, ls) == first + (c1 + c2);
      assert Captures(p1, s, i, h) == first + c1;
    }
  }

  /** The decimal numeral of a number within a group's bound is one of its tokens, and
      reads back as that number. */
  lemma DecimalToken(b: Bound, n: int)
    requires 0 <= n <= MaxOf(b)
    ensures IsToken(b, IntToString(n, 10)) && IsDecimal(IntToString(n, 10))
    ensures TokenValue(IntToString(n, 10)) == n
  {
    var t := IntToString(n, 10);
    assert t == Digits(n, 10);
    DecimalDigits(n);
    DigitsValue(n, 10);
    if n < 100 {
      DigitsOfSmall(n, 10);
      assert 1 <= |t| <= 2;
    } else {
      DigitsOfThreeDecimal(n);
      ThreeDigitToken(b, n);
    }
  }

  /** A three-digit number within a group's bound spells one of its three-digit
      alternatives. */
  lemma ThreeDigitToken(b: Bound, n: nat)
    requires 100 <= n <= MaxOf(b)
    ensures ThreeDigitAlternative(b, DigitChar(n / 100), DigitChar(n / 10 % 10), DigitChar(n % 10))
  {
    var x, y, z := n / 100, n / 10 % 10, n % 10;
    assert n == 100 * x + 10 * y + z && y < 10 && z < 10;
    var cx, cy, cz := DigitChar(x), DigitChar(y), DigitChar(z);
    assert cx == ('0' as int + x) as char && IsDigit(cy) && IsDigit(cz);
    match b
    case Max100 =>
      assert x == 1 && y == 0 && z == 0;
    case Max255 =>
      if x == 2 {
        assert cy == ('0' as int + y) as char;
        if y == 5 {
          assert cz == ('0' as int + z) as char;
        }
      }
    case Max360 =>
      if x == 3 {
        assert cy == ('0' as int + y) as char;
        if y == 6 {
          assert cz == ('0' as int + z) as char;
        }
      }
  }

  /** A non-negative number prints as a non-empty run of decimal digits. */
  lemma DecimalDigits(n: int)
    requires n >= 0
    ensures IntToString(n, 10) != [] && IsDecimal(IntToString(n, 10))
  {
  }

  // ------------------------------------------------------- head, then a body

  /** A pattern made of a head with exactly one way through, then a body, read over
      three separated runs of digits that start where the head stops: it matches
      exactly when the body fits, and its captures are then the three runs. */
  lemma HeadBodyExec(head: seq<Atom>, hl: seq<nat>, b1: Bound, sa: Atom, b2: Bound, sb: Atom,
                     b3: Bound, e: seq<Atom>, s: string, x1: nat, y0: nat, y1: nat, z0: nat, z1: nat)
    requires |hl| == |head| && Groups(head) == []
    requires Accepts(head, s, 0, hl) && forall lh: seq<nat> :: Accepts(head, s, 0, lh) ==> lh == hl
    requires IsStar(sa) && IsStar(sb) && EndShape(e)
    requires ThreeRuns(s, Total(hl), x1, y0, y1, z0, z1)
    ensures Exec(head + Body(b1, sa, b2, sb, b3, e), s).Some? <==>
      BodyFits(b1, sa, b2, sb, b3, e, s, Total(hl), x1, y0, y1, z0, z1)
    ensures Exec(head + Body(b1, sa, b2, sb, b3, e), s).Some? ==>
      Exec(head + Body(b1, sa, b2, sb, b3, e), s).value == [s[Total(hl)..x1], s[y0..y1], s[z0..z1]]
  {
    HeadBodyExecOnlyIf(head, hl, b1, sa, b2, sb, b3, e, s, x1, y0, y1, z0, z1);
    if BodyFits(b1, sa, b2, sb, b3, e, s, Total(hl), x1, y0, y1, z0, z1) {
      HeadBodyExecIf(head, hl, b1, sa, b2, sb, b3, e, s, x1, y0, y1, z0, z1);
    }
  }

  /** A match of head + body lays the three runs out as the body needs, and captures
      them. */
  lemma HeadBodyExecOnlyIf(head: seq<Atom>, hl: seq<nat>, b1: Bound, sa: Atom, b2: Bound, sb: Atom,
                           b3: Bound, e: seq<Atom>, s: string, x1: nat, y0: nat, y1: nat, z0: nat, z1: nat)
    requires |hl| == |head| && Groups(head) == []
    requires Accepts(head, s, 0, hl) && forall lh: seq<nat> :: Accepts(head, s, 0, lh) ==> lh == hl
    requires IsStar(sa) && IsStar(sb) && EndShape(e)
    requires ThreeRuns(s, Total(hl), x1, y0, y1, z0, z1)
    ensures Exec(head + Body(b1, sa, b2, sb, b3, e), s).Some? ==>
      BodyFits(b1, sa, b2, sb, b3, e, s, Total(hl), x1, y0, y1, z0, z1) &&
      Exec(head + Body(b1, sa, b2, sb, b3, e), s).value == [s[Total(hl)..x1], s[y0..y1], s[z0..z1]]
  {
    var body := Body(b1, sa, b2, sb, b3, e);
    var p := head + body;
    var r := Exec(p, s);
    if r.Some? {
      var ls: seq<nat> :| Accepts(p, s, 0, ls) && r.value == Captures(p, s, 0, ls);
      HeadBodyCaptures(head, hl, b1, sa, b2, sb, b3, e, s, ls, x1, y0, y1, z0, z1);
      HeadOfMatch(head, hl, body, s, ls);
      BodyOfMatch(head, hl, body, s, ls);
      BodyMatchOnlyIf(b1, sa, b2, sb, b3, e, s, ls[|head|..], Total(hl), x1, y0, y1, z0, z1);
    }
  }

  /** When the runs are laid out as the body needs, head + body matches. */
  lemma HeadBodyExecIf(head: seq<Atom>, hl: seq<nat>, b1: Bound, sa: Atom, b2: Bound, sb: Atom,
                       b3: Bound, e: seq<Atom>, s: string, x1: nat, y0: nat, y1: nat, z0: nat, z1: nat)
    requires |hl| == |head| && Accepts(head, s, 0, hl)
    requires IsStar(sa) && IsStar(sb) && EndShape(e)
    requires ThreeRuns(s, Total(hl), x1, y0, y1, z0, z1)
    requires BodyFits(b1, sa, b2, sb, b3, e, s, Total(hl), x1, y0, y1, z0, z1)
    ensures Exec(head + Body(b1, sa, b2, sb, b3, e), s).Some?
  {
    var body := Body(b1, sa, b2, sb, b3, e);
    var lb := BodyMatchIf(b1, sa, b2, sb, b3, e, s, Total(hl), x1, y0, y1, z0, z1);
    var ls := hl + lb;
    assert ls[..|head|] == hl && ls[|head|..] == lb;
    AcceptsConcat(head, body, s, 0, ls);
    MatchWitness(head + body, s, ls);
  }

  /** Any way through head + body captures the three runs. */
  lemma HeadBodyCaptures(head: seq<Atom>, hl: seq<nat>, b1: Bound, sa: Atom, b2: Bound, sb: Atom,
                         b3: Bound, e: seq<Atom>, s: string, ls: seq<nat>,
                         x1: nat, y0: nat, y1: nat, z0: nat, z1: nat)
    requires |hl| == |head| && Groups(head) == []
    requires Accepts(head, s, 0, hl) && forall lh: seq<nat> :: Accepts(head, s, 0, lh) ==> lh == hl
    requires IsStar(sa) && IsStar(sb) && EndShape(e)
    requires ThreeRuns(s, Total(hl), x1, y0, y1, z0, z1)
    requires Accepts(head + Body(b1, sa, b2, sb, b3, e), s, 0, ls)
    ensures Captures(head + Body(b1, sa, b2, sb, b3, e), s, 0, ls) ==
            [s[Total(hl)..x1], s[y0..y1], s[z0..z1]]
  {
    var body := Body(b1, sa, b2, sb, b3, e);
    var x0 := Total(hl);
    HeadOfMatch(head, hl, body, s, ls);
    BodyOfMatch(head, hl, body, s, ls);
    var lb := ls[|head|..];
    HeadThenBodyCaptures(head, hl, body, s, ls);
    BodyLayout(b1, sa, b2, sb, b3, e, s, lb, x0, x1, y0, y1, z0, z1);
  }

  /** Behind a head without groups, the captures are those of the body. */
  lemma HeadThenBodyCaptures(head: seq<Atom>, hl: seq<nat>, body: seq<Atom>, s: string, ls: seq<nat>)
    requires |ls| == |head| + |body| && ls[..|head|] == hl
    requires Groups(head) == [] && Accepts(head, s, 0, hl)
    ensures Captures(head + body, s, 0, ls) == Captures(body, s, Total(hl), ls[|head|..])
  {
    CapturesConcat(head, body, s, 0, ls);
    CapturesAreTokens(head, s, 0, hl);
    assert Captures(head, s, 0, hl) == [];
  }

  /** A way through head + body starts with the head's only way through. */
  lemma HeadOfMatch(head: seq<Atom>, hl: seq<nat>, body: seq<Atom>, s: string, ls: seq<nat>)
    requires |hl| == |head|
    requires Accepts(head, s, 0, hl) && forall lh: seq<nat> :: Accepts(head, s, 0, lh) ==> lh == hl
    requires Accepts(head + body, s, 0, ls)
    ensures |ls| == |head| + |body| && ls[..|head|] == hl
  {
    assert |ls| == |head + body|;
    AcceptsConcat(head, body, s, 0, ls);
  }

  /** ... and goes on with a way through the body from where the head stops. */
  lemma BodyOfMatch(head: seq<Atom>, hl: seq<nat>, body: seq<Atom>, s: string, ls: seq<nat>)
    requires |ls| == |head| + |body| && ls[..|head|] == hl
    requires Accepts(head + body, s, 0, ls)
    ensures Total(hl) <= |s| && Accepts(body, s, Total(hl), ls[|head|..])
  {
    AcceptsConcat(head, body, s, 0, ls);
  }

  // ------------------------------------------------------------------- groups

  lemma {:induction false} GroupsNone(p: seq<Atom>)
    requires forall k :: 0 <= k < |p| ==> !p[k].Group?
    ensures Groups(p) == []
    decreases |p|
  {
    if p != [] {
      GroupsNone(p[1..]);
    }
  }

  lemma {:induction false} GroupsConcat(p1: seq<Atom>, p2: seq<Atom>)
    ensures Groups(p1 + p2) == Groups(p1) + Groups(p2)
    decreases |p1|
  {
    if p1 == [] {
      assert p1 + p2 == p2;
    } else {
      assert (p1 + p2)[0] == p1[0] && (p1 + p2)[1..] == p1[1..] + p2;
      GroupsConcat(p1[1..], p2);
    }
  }

  /** A body captures its three groups, in order. */
  lemma BodyGroups(b1: Bound, sa: Atom, b2: Bound, sb: Atom, b3: Bound, e: seq<Atom>)
    requires !sa.Group? && !sb.Group? && EndShape(e)
    ensures Groups(Body(b1, sa, b2, sb, b3, e)) == [b1, b2, b3]
  {
    var r := [Group(b3)] + e;
    assert Groups(r) == [b3] by {
      GroupsNone(e);
      GroupsCons(Group(b3), e);
    }
    var q := [Group(b2)] + ([sb] + r);
    assert Groups(q) == [b2, b3] by {
      SepGroups(Group(b2), sb, r);
    }
    SepGroups(Group(b1), sa, q);
  }

  /** A group, a separator and r: the group's bound, then the groups of r. */
  lemma SepGroups(g: Atom, sa: Atom, r: seq<Atom>)
    requires g.Group? && !sa.Group?
    ensures Groups([g] + ([sa] + r)) == [g.bound] + Groups(r)
  {
    GroupsCons(sa, r);
    GroupsCons(g, [sa] + r);
  }

  /** The groups of [a] + r: a's bound if a is a group, then those of r. */
  lemma GroupsCons(a: Atom, r: seq<Atom>)
    ensures Groups([a] + r) == (if a.Group? then [a.bound] else []) + Groups(r)
  {
    assert ([a] + r)[1..] == r;
  }

  /** What the group's alternatives accept, said as numbers: one to three decimal
      digits, no leading zero in a three-digit token, and a value within the bound. */
  lemma TokenMeaning(b: Bound, t: string)
    ensures IsToken(b, t) <==>
      IsDecimal(t) && 1 <= |t| <= 3 && (|t| == 3 ==> t[0] != '0') && TokenValue(t) <= MaxOf(b)
  {
    if IsToken(b, t) {
      TokenInRange(b, t);
    }
    if IsDecimal(t) && |t| == 3 {
      assert t[0] in t && t[1] in t && t[2] in t;
      ValueOfShort(t, 10);
    }
  }

  // ------------------------------------------------------- what a match consumes

  /** Character c is one that atom a can consume. */
  predicate Takes(a: Atom, c: char) {
    match a
    case Char(x) => Lower(c) == x
    case OptSpace => IsSpace(c)
    case OptChar(x) => c == x
    case CommaSpaces => c == ',' || IsSpace(c)
    case NonDigits => !IsDigit(c)
    case Group(_) => IsDigit(c)
  }

  /** Every character an atom consumes is one it can take. */
  lemma FitsTakes(a: Atom, s: string, i: nat, l: nat, k: nat)
    requires i <= |s| && Fits(a, s, i, l) && i <= k < i + l
    ensures Takes(a, s[k])
  {
  }

  /** A character no atom of p takes does not occur in the text a way through p
      consumes. */
  lemma {:induction false} NotConsumed(p: seq<Atom>, s: string, i: nat, ls: seq<nat>, c: char)
    requires i <= |s| && Accepts(p, s, i, ls)
    requires forall k :: 0 <= k < |p| ==> !Takes(p[k], c)
    ensures i + Total(ls) <= |s|
    ensures forall k :: i <= k < i + Total(ls) ==> s[k] != c
    decreases |p|
  {
    if p != [] {
      assert !Takes(p[0], c);
      forall k | 0 <= k < |p[1..]|
        ensures !Takes(p[1..][k], c)
      {
        assert p[1..][k] == p[k + 1];
      }
      NotConsumed(p[1..], s, i + ls[0], ls[1..], c);
      forall k | i <= k < i + ls[0]
        ensures s[k] != c
      {
        FitsTakes(p[0], s, i, ls[0], k);
      }
    }
  }

  /** A way through a pattern that ends with a literal character consumes that
      character last. */
  lemma {:induction false} LastTaken(p: seq<Atom>, s: string, i: nat, ls: seq<nat>)
    requires i <= |s| && Accepts(p, s, i, ls) && p != [] && p[|p| - 1].Char?
    ensures 1 <= Total(ls) && i + Total(ls) <= |s|
    ensures Lower(s[i + Total(ls) - 1]) == p[|p| - 1].c
    decreases |p|
  {
    if |p| == 1 {
      assert ls[1..] == [];
    } else {
      assert p[1..][|p[1..]| - 1] == p[|p| - 1];
      LastTaken(p[1..], s, i + ls[0], ls[1..]);
    }
  }

  /** A way through a pattern that starts with three literal characters starts by
      taking them. */
  lemma LeadingChars(p: seq<Atom>, s: string, ls: seq<nat>)
    requires Accepts(p, s, 0, ls) && |p| >= 3 && p[0].Char? && p[1].Char? && p[2].Char?
    ensures |s| >= 3 && Lower(s[0]) == p[0].c && Lower(s[1]) == p[1].c && Lower(s[2]) == p[2].c
  {
    var j1 := AcceptsTail(p, s, 0, ls);
    var j2 := AcceptsTail(p[1..], s, j1, ls[1..]);
    assert p[1..][0] == p[1] && p[1..][1..][0] == p[2];
  }

  /** A pattern that ends with the literal x has no way through a text whose only x
      comes last, right after a character c that no atom takes. */
  lemma NoWayPast(p: seq<Atom>, s: string, ls: seq<nat>, x: char, c: char)
    requires p != [] && p[|p| - 1] == Char(x)
    requires forall k :: 0 <= k < |p| ==> !Takes(p[k], c)
    requires |s| >= 2 && Lower(s[|s| - 1]) == x && s[|s| - 2] == c
    requires forall k :: 0 <= k < |s| - 1 ==> Lower(s[k]) != x
    ensures !Accepts(p, s, 0, ls)
  {
    if Accepts(p, s, 0, ls) {
      LastTaken(p, s, 0, ls);
      NotConsumed(p, s, 0, ls, c);
      assert false;
    }
  }

  // ------------------------------------------- three single digits, no separators

  /** A pattern made of a head with exactly one way through, then a body, read over
      three digits right where the head stops, followed by a character no atom of the
      body takes and then a tail: the separators match empty and each group takes
      one digit. */
  lemma AdjacentExec(head: seq<Atom>, hl: seq<nat>, b1: Bound, sa: Atom, b2: Bound, sb: Atom,
                     b3: Bound, e: seq<Atom>, s: string, x0: nat, le: seq<nat>)
    requires |hl| == |head| && Groups(head) == [] && x0 == Total(hl)
    requires Accepts(head, s, 0, hl) && forall lh: seq<nat> :: Accepts(head, s, 0, lh) ==> lh == hl
    requires IsStar(sa) && IsStar(sb) && EndShape(e)
    requires x0 + 3 < |s| && AllDigits(s, x0, x0 + 3)
    requires !IsDigit(s[x0 + 3]) && !InClass(sa, s[x0 + 3]) && !InClass(sb, s[x0 + 3])
    requires Accepts(e, s, x0 + 3, le)
    ensures Exec(head + Body(b1, sa, b2, sb, b3, e), s).Some?
    ensures Exec(head + Body(b1, sa, b2, sb, b3, e), s).value ==
      [s[x0..x0 + 1], s[x0 + 1..x0 + 2], s[x0 + 2..x0 + 3]]
  {
    var body := Body(b1, sa, b2, sb, b3, e);
    assert Exec(head + body, s).Some? by {
      var lb := BodyBuild(b1, sa, b2, sb, b3, e, s, x0, x0 + 1, x0 + 1, x0 + 2, x0 + 2, x0 + 3, le);
      var l0 := hl + lb;
      assert l0[..|head|] == hl && l0[|head|..] == lb;
      AcceptsConcat(head, body, s, 0, l0);
      MatchWitness(head + body, s, l0);
    }
    var r := Exec(head + body, s);
    var ls: seq<nat> :| Accepts(head + body, s, 0, ls) && r.value == Captures(head + body, s, 0, ls);
    AdjacentCaptures(head, hl, b1, sa, b2, sb, b3, e, s, ls);
  }

  lemma AdjacentCaptures(head: seq<Atom>, hl: seq<nat>, b1: Bound, sa: Atom, b2: Bound, sb: Atom,
                         b3: Bound, e: seq<Atom>, s: string, ls: seq<nat>)
    requires |hl| == |head| && Groups(head) == []
    requires Accepts(head, s, 0, hl) && forall lh: seq<nat> :: Accepts(head, s, 0, lh) ==> lh == hl
    requires IsStar(sa) && IsStar(sb) && EndShape(e)
    requires Total(hl) + 3 < |s| && AllDigits(s, Total(hl), Total(hl) + 3)
    requires !IsDigit(s[Total(hl) + 3]) && !InClass(sa, s[Total(hl) + 3]) && !InClass(sb, s[Total(hl) + 3])
    requires Accepts(head + Body(b1, sa, b2, sb, b3, e), s, 0, ls)
    ensures var x0 := Total(hl);
      Captures(head + Body(b1, sa, b2, sb, b3, e), s, 0, ls) ==
      [s[x0..x0 + 1], s[x0 + 1..x0 + 2], s[x0 + 2..x0 + 3]]
  {
    var body := Body(b1, sa, b2, sb, b3, e);
    var x0 := Total(hl);
    var lb := ls[|head|..];
    assert Accepts(body, s, x0, lb) &&
      Captures(head + body, s, 0, ls) == Captures(body, s, x0, lb) by {
      HeadOfMatch(head, hl, body, s, ls);
      BodyOfMatch(head, hl, body, s, ls);
      CapturesAfterHead(head, hl, body, s, ls);
    }
    AdjacentBodyCaptures(b1, sa, b2, sb, b3, e, s, x0, lb);
  }

  /** A way through head + body captures what its body part captures when the head
      has no group. */
  lemma CapturesAfterHead(head: seq<Atom>, hl: seq<nat>, body: seq<Atom>, s: string, ls: seq<nat>)
    requires |hl| == |head| && Groups(head) == [] && Accepts(head, s, 0, hl)
    requires |ls| == |head| + |body| && ls[..|head|] == hl
    ensures Captures(head + body, s, 0, ls) == Captures(body, s, Total(hl), ls[|head|..])
  {
    CapturesConcat(head, body, s, 0, ls);
    CapturesAreTokens(head, s, 0, hl);
    assert Captures(head, s, 0, ls[..|head|]) == [];
  }

  lemma AdjacentBodyCaptures(b1: Bound, sa: Atom, b2: Bound, sb: Atom, b3: Bound, e: seq<Atom>,
                             s: string, x0: nat, lb: seq<nat>)
    requires IsStar(sa) && IsStar(sb) && EndShape(e)
    requires x0 + 3 < |s| && !IsDigit(s[x0 + 3]) && !InClass(sa, s[x0 + 3]) && !InClass(sb, s[x0 + 3])
    requires Accepts(Body(b1, sa, b2, sb, b3, e), s, x0, lb)
    ensures Captures(Body(b1, sa, b2, sb, b3, e), s, x0, lb) ==
      [s[x0..x0 + 1], s[x0 + 1..x0 + 2], s[x0 + 2..x0 + 3]]
  {
    AdjacentBody(b1, sa, b2, sb, b3, e, s, x0, lb);
    BodyCapturesAt(b1, sa, b2, sb, b3, e, s, lb, x0, x0 + 1, x0 + 1, x0 + 2, x0 + 2, x0 + 3);
  }

  /** Over the three digits, each group takes one digit and each separator none. */
  lemma AdjacentBody(b1: Bound, sa: Atom, b2: Bound, sb: Atom, b3: Bound, e: seq<Atom>,
                     s: string, x0: nat, lb: seq<nat>)
    requires IsStar(sa) && IsStar(sb)
    requires x0 + 3 < |s| && !IsDigit(s[x0 + 3]) && !InClass(sa, s[x0 + 3]) && !InClass(sb, s[x0 + 3])
    requires Accepts(Body(b1, sa, b2, sb, b3, e), s, x0, lb)
    ensures |lb| == 5 + |e| && lb[0] == 1 && lb[1] == 0 && lb[2] == 1 && lb[3] == 0 && lb[4] == 1
  {
    var p1, p2, p3, p4, p5 := BodySteps(b1, sa, b2, sb, b3, e, s, x0, lb);
    GroupSpan(b1, s, x0, lb[0]);
    GroupSpan(b2, s, p2, lb[2]);
    GroupSpan(b3, s, p4, lb[4]);
    // no atom of the body takes the character at x0 + 3, so the last group ends by it
    assert p5 <= x0 + 3;
  }
}
