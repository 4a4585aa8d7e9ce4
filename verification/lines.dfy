/** The line algebra of `src/utils/randomness.js`: the question hash, the sum of
    three coins, the parity pattern, the mutated reading and the changing lines.
    A line value is a plain integer, as in the source: the functions are total
    over any list of integers, and the readings the application builds hold only
    6, 7, 8 and 9. */
module Lines {
  import opened Wrappers
  import opened Text

  // ---------------------------------------------------------------------------
  // Question hash
  // ---------------------------------------------------------------------------

  /** Sum of `charCodeAt(0)` over the code points of `s`. */
  function CodeUnitSum(s: string): nat {
    if s == [] then 0 else FirstCodeUnit(s[0]) + CodeUnitSum(s[1..])
  }

  /** `hashPregunta`: 0 for a missing (`None`: null or undefined) or empty
      question, otherwise the sum over its code points of the first UTF-16 unit. */
  function QuestionHash(q: Option<string>): (h: nat)
    ensures q.None? ==> h == 0
    ensures q.Some? ==> h == CodeUnitSum(q.value)
  {
    match q
    case None => 0
    case Some(s) => if s == [] then 0 else CodeUnitSum(s)
  }

  /** The code-unit sum of a concatenation is the sum of the parts. */
  lemma {:induction false} CodeUnitSumAppend(a: string, b: string)
    ensures CodeUnitSum(a + b) == CodeUnitSum(a) + CodeUnitSum(b)
  {
    if a != [] {
      assert (a + b)[1..] == a[1..] + b;
      CodeUnitSumAppend(a[1..], b);
    } else {
      assert a + b == b;
    }
  }

  /** `hashPregunta(a + b) == hashPregunta(a) + hashPregunta(b)`. */
  lemma QuestionHashAdditive(a: string, b: string)
    ensures QuestionHash(Some(a + b)) == QuestionHash(Some(a)) + QuestionHash(Some(b))
  {
    CodeUnitSumAppend(a, b);
  }

  /** The examples the source's tests state. */
  lemma QuestionHashExamples()
    ensures QuestionHash(Some("")) == 0
    ensures QuestionHash(None) == 0
    ensures QuestionHash(Some("AB")) == 131
  {
    assert "AB"[1..] == "B";
  }

  /** Sum of the code points of `s`: Python's `sum(ord(c) for c in s)`. */
  function CodePointSum(s: string): nat {
    if s == [] then 0 else s[0] as int + CodePointSum(s[1..])
  }

  /** The question hash as the file's own comment describes it ("suma de charCodes,
      igual que en Python"): the code point of each character, as `ord` gives it. */
  function CodePointHash(q: Option<string>): (h: nat)
    ensures q.None? ==> h == 0
    ensures q.Some? ==> h == CodePointSum(q.value)
  {
    match q
    case None => 0
    case Some(s) => if s == [] then 0 else CodePointSum(s)
  }

  /** `charCodeAt(0)` never exceeds the code point, and the two sums agree
      exactly when every character lies in the Basic Multilingual Plane. */
  lemma {:induction false} CodeUnitSumVsCodePointSum(s: string)
    ensures CodeUnitSum(s) <= CodePointSum(s)
    ensures CodeUnitSum(s) == CodePointSum(s) <==> forall k :: 0 <= k < |s| ==> s[k] as int < 0x10000
  {
    if s != [] {
      CodeUnitSumVsCodePointSum(s[1..]);
      assert forall k :: 1 <= k < |s| ==> s[k] == s[1..][k - 1];
    }
  }

  /** The code-point sum of a concatenation is the sum of the parts. */
  lemma {:induction false} CodePointSumAppend(a: string, b: string)
    ensures CodePointSum(a + b) == CodePointSum(a) + CodePointSum(b)
  {
    if a != [] {
      assert (a + b)[1..] == a[1..] + b;
      CodePointSumAppend(a[1..], b);
    } else {
      assert a + b == b;
    }
  }

  // ---------------------------------------------------------------------------
  // One line from three coins
  // ---------------------------------------------------------------------------

  /** One coin as `lanzarMoneda` returns it: 2 (yin) or 3 (yang). How the coin
      falls (clock, secure random value, SHA-256) is left to the caller. */
  type Coin = x: int | x == 2 || x == 3 witness 2

  /** What `generarLinea` returns: the line value and the coins as words. */
  datatype Line = Line(valor: int, monedas: seq<string>)

  function CoinWord(c: Coin): string {
    if c == 2 then "yin" else "yang"
  }

  /** Value a coin word stands for: yin counts 2, yang counts 3. */
  function WordValue(w: string): int {
    if w == "yin" then 2 else 3
  }

  /** `generarLinea` given the three coins it tossed. */
  function GenerateLine(a: Coin, b: Coin, c: Coin): (r: Line)
    ensures 6 <= r.valor <= 9
    ensures |r.monedas| == 3
    ensures forall k :: 0 <= k < 3 ==> r.monedas[k] == "yin" || r.monedas[k] == "yang"
    ensures WordValue(r.monedas[0]) + WordValue(r.monedas[1]) + WordValue(r.monedas[2]) == r.valor
  {
    Line(a + b + c, [CoinWord(a), CoinWord(b), CoinWord(c)])
  }

  /** Number of yang coins among the three. */
  function YangCount(a: Coin, b: Coin, c: Coin): nat {
    (if a == 3 then 1 else 0) + (if b == 3 then 1 else 0) + (if c == 3 then 1 else 0)
  }

  /** The line value is 6 plus the number of yang coins, so every value of
      6, 7, 8 and 9 arises and nothing else does. */
  lemma LineValueByYangCount(a: Coin, b: Coin, c: Coin)
    ensures GenerateLine(a, b, c).valor == 6 + YangCount(a, b, c)
  {
  }

  lemma EveryLineValueOccurs(v: int)
    requires 6 <= v <= 9
    ensures exists a: Coin, b: Coin, c: Coin :: GenerateLine(a, b, c).valor == v
  {
    var a: Coin := if v >= 7 then 3 else 2;
    var b: Coin := if v >= 8 then 3 else 2;
    var c: Coin := if v >= 9 then 3 else 2;
    assert GenerateLine(a, b, c).valor == v;
  }

  // ---------------------------------------------------------------------------
  // Pattern, mutation and changing lines
  // ---------------------------------------------------------------------------

  /** 6 and 9 are the changing (unstable) values. */
  predicate IsChanging(v: int) {
    v == 6 || v == 9
  }

  /** `getPatron`: '0' for an even value (yin), '1' for an odd one (yang). */
  function Pattern(lines: seq<int>): (r: string)
    ensures |r| == |lines|
    ensures forall i :: 0 <= i < |lines| ==> (r[i] == '0' || r[i] == '1')
    ensures forall i :: 0 <= i < |lines| ==> (r[i] == '0' <==> lines[i] % 2 == 0)
  {
    if lines == [] then ""
    else [if lines[0] % 2 == 0 then '0' else '1'] + Pattern(lines[1..])
  }

  /** The pattern sees only parity: 6 and 8 read alike, and so do 7 and 9. */
  lemma PatternOnlySeesParity(a: seq<int>, b: seq<int>)
    requires |a| == |b|
    ensures Pattern(a) == Pattern(b) <==> forall i :: 0 <= i < |a| ==> a[i] % 2 == b[i] % 2
  {
    if forall i :: 0 <= i < |a| ==> a[i] % 2 == b[i] % 2 {
      assert forall i :: 0 <= i < |a| ==> Pattern(a)[i] == Pattern(b)[i];
    } else {
      var i :| 0 <= i < |a| && a[i] % 2 != b[i] % 2;
      assert Pattern(a)[i] != Pattern(b)[i];
    }
  }

  /** The pattern the source's tests state for mixed lines. */
  lemma PatternExamples()
    ensures Pattern([6, 7, 8, 9, 6, 7]) == "010101"
  {
  }

  /** The patterns the source's tests state for stable lines. */
  lemma StablePatternExamples()
    ensures Pattern([8, 8, 8, 8, 8, 8]) == "000000"
    ensures Pattern([7, 7, 7, 7, 7, 7]) == "111111"
  {
  }

  /** The patterns the source's tests state for all-changing lines. */
  lemma ChangingPatternExamples()
    ensures Pattern([6, 6, 6, 6, 6, 6]) == "000000"
    ensures Pattern([9, 9, 9, 9, 9, 9]) == "111111"
  {
  }

  /** `calcularMutado`: a new list in which 6 becomes 7 and 9 becomes 8. */
  function Mutate(lines: seq<int>): (r: seq<int>)
    ensures |r| == |lines|
    ensures forall i :: 0 <= i < |lines| && lines[i] == 6 ==> r[i] == 7
    ensures forall i :: 0 <= i < |lines| && lines[i] == 9 ==> r[i] == 8
    ensures forall i :: 0 <= i < |lines| && !IsChanging(lines[i]) ==> r[i] == lines[i]
  {
    if lines == [] then []
    else [if lines[0] == 6 then 7 else if lines[0] == 9 then 8 else lines[0]] + Mutate(lines[1..])
  }

  /** Strictly increasing. */
  predicate Ascending(r: seq<nat>) {
    forall k, m :: 0 <= k < m < |r| ==> r[k] < r[m]
  }

  /** `getLineasMutantes` from position `from` on. */
  function ChangingFrom(lines: seq<int>, from: nat): seq<nat>
    requires from <= |lines|
    decreases |lines| - from
  {
    if from == |lines| then []
    else if IsChanging(lines[from]) then [from] + ChangingFrom(lines, from + 1)
    else ChangingFrom(lines, from + 1)
  }

  /** The positions listed from `from` on are ascending and are exactly the
      changing ones. */
  lemma {:induction false} ChangingFromSpec(lines: seq<int>, from: nat)
    requires from <= |lines|
    ensures Ascending(ChangingFrom(lines, from))
    ensures forall i :: i in ChangingFrom(lines, from) <==> from <= i < |lines| && IsChanging(lines[i])
    decreases |lines| - from
  {
    if from < |lines| {
      ChangingFromSpec(lines, from + 1);
      var tail := ChangingFrom(lines, from + 1);
      assert forall k :: 0 <= k < |tail| ==> tail[k] > from by {
        forall k | 0 <= k < |tail| ensures tail[k] > from {
          assert tail[k] in tail;
        }
      }
    }
  }

  /** `getLineasMutantes`: the positions holding 6 or 9, in ascending order. */
  function ChangingLines(lines: seq<int>): (r: seq<nat>)
    ensures Ascending(r)
    ensures forall i :: i in r <==> 0 <= i < |lines| && IsChanging(lines[i])
  {
    ChangingFromSpec(lines, 0);
    ChangingFrom(lines, 0)
  }

  /** `hayMutaciones`: some value is 6 or 9. */
  predicate HasChanges(lines: seq<int>) {
    exists i :: 0 <= i < |lines| && IsChanging(lines[i])
  }

  /** `hayMutaciones` holds exactly when `getLineasMutantes` is not empty. */
  lemma HasChangesIffChangingLines(lines: seq<int>)
    ensures HasChanges(lines) <==> |ChangingLines(lines)| > 0
  {
    var r := ChangingLines(lines);
    if |r| > 0 {
      assert r[0] in r;
    }
  }

  /** A mutated reading is fully stable, so mutating again changes nothing. */
  lemma MutateStable(lines: seq<int>)
    ensures !HasChanges(Mutate(lines))
    ensures Mutate(Mutate(lines)) == Mutate(lines)
    ensures ChangingLines(Mutate(lines)) == []
  {
    var m := Mutate(lines);
    assert !HasChanges(m);
    HasChangesIffChangingLines(m);
  }

  /** A reading equals its mutation exactly when it has no changing line. */
  lemma MutateFixedIffNoChanges(lines: seq<int>)
    ensures Mutate(lines) == lines <==> !HasChanges(lines)
  {
    if HasChanges(lines) {
      var i :| 0 <= i < |lines| && IsChanging(lines[i]);
      assert Mutate(lines)[i] != lines[i];
    }
  }

  /** Mutation flips the pattern exactly at the changing lines. */
  lemma PatternFlipsAtChangingLines(lines: seq<int>)
    ensures |Pattern(Mutate(lines))| == |Pattern(lines)|
    ensures forall i :: 0 <= i < |lines| ==>
      (Pattern(Mutate(lines))[i] != Pattern(lines)[i] <==> i in ChangingLines(lines))
  {
  }

  /** The mixed example the source's tests state for mutation. */
  lemma MutateExamples()
    ensures Mutate([6, 7, 8, 9, 6, 9]) == [7, 7, 8, 8, 7, 8]
  {
  }

  /** Six changing yang lines mutate into six stable yin lines. */
  lemma MutateAllYangExample()
    ensures Mutate([9, 9, 9, 9, 9, 9]) == [8, 8, 8, 8, 8, 8]
  {
  }

  /** Stable lines do not mutate. */
  lemma MutateStableExample()
    ensures Mutate([7, 8, 7, 8, 7, 8]) == [7, 8, 7, 8, 7, 8]
  {
  }

  /** The examples the source's tests state for the changing lines. */
  lemma ChangingLinesExamples()
    ensures ChangingLines([6, 7, 9, 8, 6, 7]) == [0, 2, 4]
    ensures ChangingLines([7, 8, 7, 8, 7, 6]) == [5]
  {
    var a := [6, 7, 9, 8, 6, 7];
    assert ChangingFrom(a, 4) == [4];
    assert ChangingFrom(a, 2) == [2, 4];
    var b := [7, 8, 7, 8, 7, 6];
    assert ChangingFrom(b, 5) == [5];
  }

  /** No changing line: an empty list. */
  lemma ChangingLinesNone()
    ensures ChangingLines([7, 8, 7, 8, 7, 8]) == []
  {
    var d := [7, 8, 7, 8, 7, 8];
    assert ChangingFrom(d, 3) == [];
  }

  /** The positions `lo` to `hi - 1`, in order. */
  function Range(lo: nat, hi: nat): (r: seq<nat>)
    requires lo <= hi
    ensures |r| == hi - lo && forall k :: 0 <= k < |r| ==> r[k] == lo + k
    decreases hi - lo
  {
    if lo == hi then [] else [lo] + Range(lo + 1, hi)
  }

  /** When every line from `from` on is changing, all those positions are listed. */
  lemma {:induction false} ChangingFromAllChanging(lines: seq<int>, from: nat)
    requires from <= |lines|
    requires forall i :: from <= i < |lines| ==> IsChanging(lines[i])
    ensures ChangingFrom(lines, from) == Range(from, |lines|)
    decreases |lines| - from
  {
    if from < |lines| {
      ChangingFromAllChanging(lines, from + 1);
    }
  }

  /** All six changing: every position. */
  lemma ChangingLinesAll()
    ensures ChangingLines([6, 9, 6, 9, 6, 9]) == [0, 1, 2, 3, 4, 5]
  {
    ChangingFromAllChanging([6, 9, 6, 9, 6, 9], 0);
    assert Range(0, 6) == [0, 1, 2, 3, 4, 5];
  }

  lemma HasChangesExamples()
    ensures HasChanges([7, 8, 6, 8, 7, 8]) && HasChanges([7, 8, 7, 8, 9, 8])
    ensures HasChanges([6, 9, 6, 9, 6, 9])
    ensures !HasChanges([7, 8, 7, 8, 7, 8]) && !HasChanges([7, 7, 7, 7, 7, 7])
    ensures !HasChanges([8, 8, 8, 8, 8, 8])
  {
    assert [7, 8, 6, 8, 7, 8][2] == 6;
    assert [7, 8, 7, 8, 9, 8][4] == 9;
    assert [6, 9, 6, 9, 6, 9][0] == 6;
  }
}
