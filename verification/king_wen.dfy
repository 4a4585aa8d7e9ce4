/** The King Wen table and the trigram split of `src/data/hexagrams.js`.
    A pattern is a six-character string over '0' and '1', line 1 (the bottom
    line) first. */
module KingWen {
  import opened Wrappers
  import opened Text

  // ---------------------------------------------------------------------------
  // The 64-entry table
  // ---------------------------------------------------------------------------

  /** `KING_WEN_MAPPING`, entry by entry in the order the source writes it
      (split in four displays of sixteen only to keep indexing cheap). */
  const Entries: seq<(string, int)> :=
    [
      ("111111", 1), ("000000", 2), ("100010", 3), ("010001", 4),
      ("111010", 5), ("010111", 6), ("010000", 7), ("000010", 8),
      ("111011", 9), ("110111", 10), ("111000", 11), ("000111", 12),
      ("101111", 13), ("111101", 14), ("001000", 15), ("000100", 16)]
    + [
      ("100110", 17), ("011001", 18), ("110000", 19), ("000011", 20),
      ("100101", 21), ("101001", 22), ("000001", 23), ("100000", 24),
      ("100111", 25), ("111001", 26), ("100001", 27), ("011110", 28),
      ("010010", 29), ("101101", 30), ("001110", 31), ("011100", 32)]
    + [
      ("001111", 33), ("111100", 34), ("000101", 35), ("101000", 36),
      ("101011", 37), ("110101", 38), ("001010", 39), ("010100", 40),
      ("110001", 41), ("100011", 42), ("111110", 43), ("011111", 44),
      ("000110", 45), ("011000", 46), ("010110", 47), ("011010", 48)]
    + [
      ("101110", 49), ("011101", 50), ("100100", 51), ("001001", 52),
      ("001011", 53), ("110100", 54), ("101100", 55), ("001101", 56),
      ("011011", 57), ("110110", 58), ("010011", 59), ("110010", 60),
      ("110011", 61), ("001100", 62), ("101010", 63), ("010101", 64)]


  predicate IsBit(c: char) {
    c == '0' || c == '1'
  }

  /** A six-line binary pattern. */
  predicate IsPattern(p: string) {
    |p| == 6 && forall k :: 0 <= k < 6 ==> IsBit(p[k])
  }

  function BitValue(c: char): nat {
    if c == '1' then 1 else 0
  }

  /** The pattern read as a six-bit number, line 1 as the lowest bit. */
  ghost function Code(p: string): nat
    requires |p| == 6
  {
    BitValue(p[0]) + 2 * BitValue(p[1]) + 4 * BitValue(p[2])
    + 8 * BitValue(p[3]) + 16 * BitValue(p[4]) + 32 * BitValue(p[5])
  }

  /** `Code` of each key of `Entries`, in the same order. */
  ghost const EntryCodes: seq<nat> :=
    [63, 0, 17, 34, 23, 58, 2, 16, 55, 59, 7, 56, 61, 47, 4, 8]
    + [25, 38, 3, 48, 41, 37, 32, 1, 57, 39, 33, 30, 18, 45, 28, 14]
    + [60, 15, 40, 5, 53, 43, 20, 10, 35, 49, 31, 62, 24, 6, 26, 22]
    + [29, 46, 9, 36, 52, 11, 13, 44, 54, 27, 50, 19, 51, 12, 21, 42]


  /** For each six-bit number, the position in `Entries` of the key with that code. */
  ghost const EntryAtCode: seq<nat> :=
    [1, 23, 6, 18, 14, 35, 45, 10, 15, 50, 39, 53, 61, 54, 31, 33]
    + [7, 2, 28, 59, 38, 62, 47, 4, 44, 16, 46, 57, 30, 48, 27, 42]
    + [22, 26, 3, 40, 51, 21, 17, 25, 34, 20, 63, 37, 55, 29, 49, 13]
    + [19, 41, 58, 60, 52, 36, 56, 8, 11, 24, 5, 9, 32, 12, 43, 0]


  /** Two patterns with the same code are the same pattern. */
  lemma CodeInjective(p: string, q: string)
    requires IsPattern(p) && IsPattern(q) && Code(p) == Code(q)
    ensures p == q
  {
    assert forall k :: 0 <= k < 6 ==> BitValue(p[k]) == BitValue(q[k]);
    assert forall k :: 0 <= k < 6 ==> p[k] == q[k];
  }

  /** Entry `i` is a pattern with code `EntryCodes[i]` and ordinal `i + 1`. */
  lemma EntryFact(i: nat)
    requires i < 64
    ensures |Entries| == 64
    ensures IsPattern(Entries[i].0) && Code(Entries[i].0) == EntryCodes[i]
    ensures Entries[i].1 == i + 1
  {
    if i < 4 {
      EntryFactsFrom0(i);
    } else if i < 8 {
      EntryFactsFrom4(i);
    } else if i < 12 {
      EntryFactsFrom8(i);
    } else if i < 16 {
      EntryFactsFrom12(i);
    } else if i < 20 {
      EntryFactsFrom16(i);
    } else if i < 24 {
      EntryFactsFrom20(i);
    } else if i < 28 {
      EntryFactsFrom24(i);
    } else if i < 32 {
      EntryFactsFrom28(i);
    } else if i < 36 {
      EntryFactsFrom32(i);
    } else if i < 40 {
      EntryFactsFrom36(i);
    } else if i < 44 {
      EntryFactsFrom40(i);
    } else if i < 48 {
      EntryFactsFrom44(i);
    } else if i < 52 {
      EntryFactsFrom48(i);
    } else if i < 56 {
      EntryFactsFrom52(i);
    } else if i < 60 {
      EntryFactsFrom56(i);
    } else {
      EntryFactsFrom60(i);
    }
  }

  lemma EntryFactsFrom0(i: nat)
    requires 0 <= i < 4
    ensures IsPattern(Entries[i].0) && Code(Entries[i].0) == EntryCodes[i]
    ensures Entries[i].1 == i + 1
  {
    match i
    case 0 =>
    case 1 =>
    case 2 =>
    case 3 =>
  }

  lemma EntryFactsFrom4(i: nat)
    requires 4 <= i < 8
    ensures IsPattern(Entries[i].0) && Code(Entries[i].0) == EntryCodes[i]
    ensures Entries[i].1 == i + 1
  {
    match i
    case 4 =>
    case 5 =>
    case 6 =>
    case 7 =>
  }

  lemma EntryFactsFrom8(i: nat)
    requires 8 <= i < 12
    ensures IsPattern(Entries[i].0) && Code(Entries[i].0) == EntryCodes[i]
    ensures Entries[i].1 == i + 1
  {
    match i
    case 8 =>
    case 9 =>
    case 10 =>
    case 11 =>
  }

  lemma EntryFactsFrom12(i: nat)
    requires 12 <= i < 16
    ensures IsPattern(Entries[i].0) && Code(Entries[i].0) == EntryCodes[i]
    ensures Entries[i].1 == i + 1
  {
    match i
    case 12 =>
    case 13 =>
    case 14 =>
    case 15 =>
  }

  lemma EntryFactsFrom16(i: nat)
    requires 16 <= i < 20
    ensures IsPattern(Entries[i].0) && Code(Entries[i].0) == EntryCodes[i]
    ensures Entries[i].1 == i + 1
  {
    match i
    case 16 =>
    case 17 =>
    case 18 =>
    case 19 =>
  }

  lemma EntryFactsFrom20(i: nat)
    requires 20 <= i < 24
    ensures IsPattern(Entries[i].0) && Code(Entries[i].0) == EntryCodes[i]
    ensures Entries[i].1 == i + 1
  {
    match i
    case 20 =>
    case 21 =>
    case 22 =>
    case 23 =>
  }

  lemma EntryFactsFrom24(i: nat)
    requires 24 <= i < 28
    ensures IsPattern(Entries[i].0) && Code(Entries[i].0) == EntryCodes[i]
    ensures Entries[i].1 == i + 1
  {
    match i
    case 24 =>
    case 25 =>
    case 26 =>
    case 27 =>
  }

  lemma EntryFactsFrom28(i: nat)
    requires 28 <= i < 32
    ensures IsPattern(Entries[i].0) && Code(Entries[i].0) == EntryCodes[i]
    ensures Entries[i].1 == i + 1
  {
    match i
    case 28 =>
    case 29 =>
    case 30 =>
    case 31 =>
  }

  lemma EntryFactsFrom32(i: nat)
    requires 32 <= i < 36
    ensures IsPattern(Entries[i].0) && Code(Entries[i].0) == EntryCodes[i]
    ensures Entries[i].1 == i + 1
  {
    match i
    case 32 =>
    case 33 =>
    case 34 =>
    case 35 =>
  }

  lemma EntryFactsFrom36(i: nat)
    requires 36 <= i < 40
    ensures IsPattern(Entries[i].0) && Code(Entries[i].0) == EntryCodes[i]
    ensures Entries[i].1 == i + 1
  {
    match i
    case 36 =>
    case 37 =>
    case 38 =>
    case 39 =>
  }

  lemma EntryFactsFrom40(i: nat)
    requires 40 <= i < 44
    ensures IsPattern(Entries[i].0) && Code(Entries[i].0) == EntryCodes[i]
    ensures Entries[i].1 == i + 1
  {
    match i
    case 40 =>
    case 41 =>
    case 42 =>
    case 43 =>
  }

  lemma EntryFactsFrom44(i: nat)
    requires 44 <= i < 48
    ensures IsPattern(Entries[i].0) && Code(Entries[i].0) == EntryCodes[i]
    ensures Entries[i].1 == i + 1
  {
    match i
    case 44 =>
    case 45 =>
    case 46 =>
    case 47 =>
  }

  lemma EntryFactsFrom48(i: nat)
    requires 48 <= i < 52
    ensures IsPattern(Entries[i].0) && Code(Entries[i].0) == EntryCodes[i]
    ensures Entries[i].1 == i + 1
  {
    match i
    case 48 =>
    case 49 =>
    case 50 =>
    case 51 =>
  }

  lemma EntryFactsFrom52(i: nat)
    requires 52 <= i < 56
    ensures IsPattern(Entries[i].0) && Code(Entries[i].0) == EntryCodes[i]
    ensures Entries[i].1 == i + 1
  {
    match i
    case 52 =>
    case 53 =>
    case 54 =>
    case 55 =>
  }

  lemma EntryFactsFrom56(i: nat)
    requires 56 <= i < 60
    ensures IsPattern(Entries[i].0) && Code(Entries[i].0) == EntryCodes[i]
    ensures Entries[i].1 == i + 1
  {
    match i
    case 56 =>
    case 57 =>
    case 58 =>
    case 59 =>
  }

  lemma EntryFactsFrom60(i: nat)
    requires 60 <= i < 64
    ensures IsPattern(Entries[i].0) && Code(Entries[i].0) == EntryCodes[i]
    ensures Entries[i].1 == i + 1
  {
    match i
    case 60 =>
    case 61 =>
    case 62 =>
    case 63 =>
  }

  /** `EntryAtCode` and `EntryCodes` are inverse permutations of 0..63. */
  lemma CodeTablesInverse(i: nat)
    requires i < 64
    ensures EntryAtCode[i] < 64 && EntryCodes[EntryAtCode[i]] == i
    ensures EntryCodes[i] < 64 && EntryAtCode[EntryCodes[i]] == i
  {
    if i < 8 {
      CodeTablesInverseFrom0(i);
    } else if i < 16 {
      CodeTablesInverseFrom8(i);
    } else if i < 24 {
      CodeTablesInverseFrom16(i);
    } else if i < 32 {
      CodeTablesInverseFrom24(i);
    } else if i < 40 {
      CodeTablesInverseFrom32(i);
    } else if i < 48 {
      CodeTablesInverseFrom40(i);
    } else if i < 56 {
      CodeTablesInverseFrom48(i);
    } else {
      CodeTablesInverseFrom56(i);
    }
  }

  lemma CodeTablesInverseFrom0(i: nat)
    requires 0 <= i < 8
    ensures EntryAtCode[i] < 64 && EntryCodes[EntryAtCode[i]] == i
    ensures EntryCodes[i] < 64 && EntryAtCode[EntryCodes[i]] == i
  {
    match i
    case 0 =>
    case 1 =>
    case 2 =>
    case 3 =>
    case 4 =>
    case 5 =>
    case 6 =>
    case 7 =>
  }

  lemma CodeTablesInverseFrom8(i: nat)
    requires 8 <= i < 16
    ensures EntryAtCode[i] < 64 && EntryCodes[EntryAtCode[i]] == i
    ensures EntryCodes[i] < 64 && EntryAtCode[EntryCodes[i]] == i
  {
    match i
    case 8 =>
    case 9 =>
    case 10 =>
    case 11 =>
    case 12 =>
    case 13 =>
    case 14 =>
    case 15 =>
  }

  lemma CodeTablesInverseFrom16(i: nat)
    requires 16 <= i < 24
    ensures EntryAtCode[i] < 64 && EntryCodes[EntryAtCode[i]] == i
    ensures EntryCodes[i] < 64 && EntryAtCode[EntryCodes[i]] == i
  {
    match i
    case 16 =>
    case 17 =>
    case 18 =>
    case 19 =>
    case 20 =>
    case 21 =>
    case 22 =>
    case 23 =>
  }

  lemma CodeTablesInverseFrom24(i: nat)
    requires 24 <= i < 32
    ensures EntryAtCode[i] < 64 && EntryCodes[EntryAtCode[i]] == i
    ensures EntryCodes[i] < 64 && EntryAtCode[EntryCodes[i]] == i
  {
    match i
    case 24 =>
    case 25 =>
    case 26 =>
    case 27 =>
    case 28 =>
    case 29 =>
    case 30 =>
    case 31 =>
  }

  lemma CodeTablesInverseFrom32(i: nat)
    requires 32 <= i < 40
    ensures EntryAtCode[i] < 64 && EntryCodes[EntryAtCode[i]] == i
    ensures EntryCodes[i] < 64 && EntryAtCode[EntryCodes[i]] == i
  {
    match i
    case 32 =>
    case 33 =>
    case 34 =>
    case 35 =>
    case 36 =>
    case 37 =>
    case 38 =>
    case 39 =>
  }

  lemma CodeTablesInverseFrom40(i: nat)
    requires 40 <= i < 48
    ensures EntryAtCode[i] < 64 && EntryCodes[EntryAtCode[i]] == i
    ensures EntryCodes[i] < 64 && EntryAtCode[EntryCodes[i]] == i
  {
    match i
    case 40 =>
    case 41 =>
    case 42 =>
    case 43 =>
    case 44 =>
    case 45 =>
    case 46 =>
    case 47 =>
  }

  lemma CodeTablesInverseFrom48(i: nat)
    requires 48 <= i < 56
    ensures EntryAtCode[i] < 64 && EntryCodes[EntryAtCode[i]] == i
    ensures EntryCodes[i] < 64 && EntryAtCode[EntryCodes[i]] == i
  {
    match i
    case 48 =>
    case 49 =>
    case 50 =>
    case 51 =>
    case 52 =>
    case 53 =>
    case 54 =>
    case 55 =>
  }

  lemma CodeTablesInverseFrom56(i: nat)
    requires 56 <= i < 64
    ensures EntryAtCode[i] < 64 && EntryCodes[EntryAtCode[i]] == i
    ensures EntryCodes[i] < 64 && EntryAtCode[EntryCodes[i]] == i
  {
    match i
    case 56 =>
    case 57 =>
    case 58 =>
    case 59 =>
    case 60 =>
    case 61 =>
    case 62 =>
    case 63 =>
  }

  // ---------------------------------------------------------------------------
  // Keyed lookup
  // ---------------------------------------------------------------------------

  /** Property lookup in an object literal given as its entries in source order:
      the value of the first entry with key `k`, `None` for `undefined`. */
  function Find<V>(es: seq<(string, V)>, k: string): (r: Option<V>)
  {
    if es == [] then None
    else if es[0].0 == k then Some(es[0].1)
    else Find(es[1..], k)
  }

  /** `Find` returns the value of the first entry with the key, and `None`
      exactly when no entry has it. */
  lemma {:induction false} FindSpec<V>(es: seq<(string, V)>, k: string)
    ensures Find(es, k).None? <==> forall i :: 0 <= i < |es| ==> es[i].0 != k
    ensures Find(es, k).Some? ==>
              exists i :: 0 <= i < |es| && es[i].0 == k && Find(es, k).value == es[i].1
                          && forall j :: 0 <= j < i ==> es[j].0 != k
  {
    if es != [] && es[0].0 != k {
      FindSpec(es[1..], k);
      if Find(es, k).Some? {
        var i :| 0 <= i < |es[1..]| && es[1..][i].0 == k && Find(es, k).value == es[1..][i].1
                 && forall j :: 0 <= j < i ==> es[1..][j].0 != k;
        assert es[i + 1].0 == k;
        assert forall j :: 0 <= j < i + 1 ==> es[j].0 != k by {
          forall j | 0 <= j < i + 1 ensures es[j].0 != k {
            if j > 0 { assert es[j] == es[1..][j - 1]; }
          }
        }
      } else {
        assert forall i :: 0 <= i < |es| ==> es[i].0 != k by {
          forall i | 0 <= i < |es| ensures es[i].0 != k {
            if i > 0 { assert es[i] == es[1..][i - 1]; }
          }
        }
      }
    }
  }

  /** With distinct keys, `Find` returns the value of the one entry with that key. */
  lemma FindDistinct<V>(es: seq<(string, V)>, i: nat)
    requires i < |es|
    requires forall a, b :: 0 <= a < b < |es| ==> es[a].0 != es[b].0
    ensures Find(es, es[i].0) == Some(es[i].1)
  {
    FindSpec(es, es[i].0);
    var j :| 0 <= j < |es| && es[j].0 == es[i].0 && Find(es, es[i].0).value == es[j].1
             && forall m :: 0 <= m < j ==> es[m].0 != es[i].0;
    if j != i {
      assert false;
    }
  }

  // ---------------------------------------------------------------------------
  // The table is a bijection between patterns and 1..64
  // ---------------------------------------------------------------------------

  /** Every key of the table is a pattern and every ordinal is its position plus one. */
  lemma EntriesWellFormed()
    ensures |Entries| == 64
    ensures forall i :: 0 <= i < 64 ==> IsPattern(Entries[i].0) && Entries[i].1 == i + 1
  {
    forall i | 0 <= i < 64
      ensures IsPattern(Entries[i].0) && Entries[i].1 == i + 1
    {
      EntryFact(i);
    }
  }

  /** No key is written twice. */
  lemma EntryKeysDistinct()
    ensures |Entries| == 64
    ensures forall a, b :: 0 <= a < b < 64 ==> Entries[a].0 != Entries[b].0
  {
    forall a, b | 0 <= a < b < 64
      ensures Entries[a].0 != Entries[b].0
    {
      EntryFact(a);
      EntryFact(b);
      CodeTablesInverse(a);
      CodeTablesInverse(b);
    }
  }

  /** Every six-line pattern is a key of the table. */
  lemma EveryPatternListed(p: string)
    requires IsPattern(p)
    ensures exists i :: 0 <= i < 64 && Entries[i].0 == p
  {
    var c := Code(p);
    CodeTablesInverse(c);
    var i := EntryAtCode[c];
    EntryFact(i);
    CodeInjective(p, Entries[i].0);
  }

  /** `KING_WEN_MAPPING[patron]`. */
  function Lookup(p: string): Option<int>
  {
    Find(Entries, p)
  }

  /** The lookup is defined exactly on the 64 patterns, yields an ordinal in
      1..64, and the entry at that ordinal carries the pattern. */
  lemma LookupSpec(p: string)
    ensures Lookup(p).Some? <==> IsPattern(p)
    ensures Lookup(p).Some? ==>
              1 <= Lookup(p).value <= 64 && Entries[Lookup(p).value - 1].0 == p
  {
    EntriesWellFormed();
    FindSpec(Entries, p);
    if IsPattern(p) {
      EveryPatternListed(p);
    }
  }

  /** Distinct patterns get distinct ordinals. */
  lemma LookupInjective(p: string, q: string)
    requires Lookup(p).Some? && Lookup(p) == Lookup(q)
    ensures p == q
  {
    LookupSpec(p);
    LookupSpec(q);
  }

  /** Every ordinal 1..64 is reached by some pattern. */
  lemma LookupSurjective(n: int)
    requires 1 <= n <= 64
    ensures exists p :: IsPattern(p) && Lookup(p) == Some(n)
  {
    EntriesWellFormed();
    EntryKeysDistinct();
    FindDistinct(Entries, n - 1);
    assert Lookup(Entries[n - 1].0) == Some(n);
  }

  lemma LookupExamples()
    ensures Lookup("111111") == Some(1)
    ensures Lookup("000000") == Some(2)
    ensures Lookup("010101") == Some(64)
    ensures Lookup("11111") == None
    ensures Lookup("2") == None
  {
    EntriesWellFormed();
    EntryKeysDistinct();
    FindDistinct(Entries, 0);
    FindDistinct(Entries, 1);
    FindDistinct(Entries, 63);
    LookupSpec("11111");
    LookupSpec("2");
  }

  /** `patronParaNumero`: the key whose ordinal is `n`, or `None` for `null`. */
  function PatternOf(n: int): Option<string>
  {
    KeyWithValue(Entries, n)
  }

  /** The key of the first entry whose value is `n`. */
  function KeyWithValue(es: seq<(string, int)>, n: int): Option<string>
  {
    if es == [] then None
    else if es[0].1 == n then Some(es[0].0)
    else KeyWithValue(es[1..], n)
  }

  lemma {:induction false} KeyWithValueSpec(es: seq<(string, int)>, n: int)
    ensures KeyWithValue(es, n).None? <==> forall i :: 0 <= i < |es| ==> es[i].1 != n
    ensures KeyWithValue(es, n).Some? ==>
              exists i :: 0 <= i < |es| && es[i].1 == n && KeyWithValue(es, n).value == es[i].0
  {
    if es != [] && es[0].1 != n {
      KeyWithValueSpec(es[1..], n);
      if KeyWithValue(es, n).Some? {
        var i :| 0 <= i < |es[1..]| && es[1..][i].1 == n && KeyWithValue(es, n).value == es[1..][i].0;
        assert es[i + 1] == es[1..][i];
      } else {
        assert forall i :: 0 <= i < |es| ==> es[i].1 != n by {
          forall i | 0 <= i < |es| ensures es[i].1 != n {
            if i > 0 { assert es[i] == es[1..][i - 1]; }
          }
        }
      }
    }
  }

  /** `patronParaNumero` answers exactly for 1..64, with the key of entry `n`. */
  lemma PatternOfSpec(n: int)
    ensures PatternOf(n).Some? <==> 1 <= n <= 64
    ensures PatternOf(n).Some? ==> PatternOf(n).value == Entries[n - 1].0 && IsPattern(PatternOf(n).value)
  {
    EntriesWellFormed();
    KeyWithValueSpec(Entries, n);
    if 1 <= n <= 64 {
      assert Entries[n - 1].1 == n;
    }
  }

  /** Inverse lookup round-trips: the table maps `patronParaNumero(n)` back to `n`. */
  lemma PatternOfRoundTrip(n: int)
    requires 1 <= n <= 64
    ensures PatternOf(n).Some? && Lookup(PatternOf(n).value) == Some(n)
  {
    PatternOfSpec(n);
    EntriesWellFormed();
    EntryKeysDistinct();
    FindDistinct(Entries, n - 1);
  }

  /** And the other way round: the pattern of the ordinal of `p` is `p`. */
  lemma LookupRoundTrip(p: string)
    requires IsPattern(p)
    ensures Lookup(p).Some? && PatternOf(Lookup(p).value) == Some(p)
  {
    LookupSpec(p);
    PatternOfSpec(Lookup(p).value);
  }

  // ---------------------------------------------------------------------------
  // Trigrams
  // ---------------------------------------------------------------------------

  /** `TRIGRAMAS`, in source order. */
  const Trigrams: seq<(string, string)> :=
    [ ("111", "Cielo (Qian)"), ("000", "Tierra (Kun)"), ("100", "Trueno (Zhen)"),
      ("010", "Agua (Kan)"), ("001", "Monta\U{00F1}a (Gen)"), ("110", "Lago (Dui)"),
      ("101", "Fuego (Li)"), ("011", "Viento (Xun)") ]

  predicate IsTrigram(t: string) {
    |t| == 3 && forall k :: 0 <= k < 3 ==> IsBit(t[k])
  }

  /** `patron.slice(a, b)` with both bounds clamped to the length. */
  function Slice(s: string, a: nat, b: nat): (r: string)
    requires a <= b
    ensures |r| <= b - a
    ensures b <= |s| ==> r == s[a..b]
  {
    var hi := if b <= |s| then b else |s|;
    var lo := if a <= hi then a else hi;
    s[lo..hi]
  }

  /** `TRIGRAMAS[t] || t`: the name, or the key itself when it has no (truthy) name. */
  function TrigramName(t: string): string
  {
    match Find(Trigrams, t)
    case Some(name) => if name != "" then name else t
    case None => t
  }

  datatype TrigramPair = TrigramPair(superior: string, inferior: string)

  /** `getTrigrams`: characters 0-2 name the lower trigram, 3-5 the upper one. */
  function GetTrigrams(patron: string): (r: TrigramPair)
    ensures IsPattern(patron) ==>
              r.inferior == TrigramName(patron[..3]) && r.superior == TrigramName(patron[3..])
  {
    var lower := Slice(patron, 0, 3);
    var upper := Slice(patron, 3, 6);
    assert |patron| == 6 ==> lower == patron[..3] && upper == patron[3..];
    TrigramPair(TrigramName(upper), TrigramName(lower))
  }

  /** The names of the eight trigrams, the values of `TRIGRAMAS`. */
  predicate IsTrigramName(name: string) {
    exists i :: 0 <= i < 8 && Trigrams[i].1 == name
  }

  /** `TRIGRAMAS` covers every three-bit string, its keys are distinct and so are its names. */
  lemma TrigramTableComplete()
    ensures |Trigrams| == 8
    ensures forall i :: 0 <= i < 8 ==> IsTrigram(Trigrams[i].0) && Trigrams[i].1 != ""
    ensures forall a, b :: 0 <= a < b < 8 ==> Trigrams[a].0 != Trigrams[b].0 && Trigrams[a].1 != Trigrams[b].1
    ensures forall t :: IsTrigram(t) ==> exists i :: 0 <= i < 8 && Trigrams[i].0 == t
  {
    forall t | IsTrigram(t)
      ensures exists i :: 0 <= i < 8 && Trigrams[i].0 == t
    {
      assert t == [t[0], t[1], t[2]];
      if t == "111" { assert Trigrams[0].0 == t; }
      else if t == "000" { assert Trigrams[1].0 == t; }
      else if t == "100" { assert Trigrams[2].0 == t; }
      else if t == "010" { assert Trigrams[3].0 == t; }
      else if t == "001" { assert Trigrams[4].0 == t; }
      else if t == "110" { assert Trigrams[5].0 == t; }
      else if t == "101" { assert Trigrams[6].0 == t; }
      else { assert Trigrams[7].0 == t; }
    }
  }

  /** On a three-bit string the `|| t` fallback is never taken: the result is a trigram name,
      and the name of the entry with that key. */
  lemma TrigramNameOfTrigram(t: string)
    requires IsTrigram(t)
    ensures IsTrigramName(TrigramName(t))
    ensures forall i :: 0 <= i < 8 && Trigrams[i].0 == t ==> TrigramName(t) == Trigrams[i].1
  {
    TrigramTableComplete();
    var i :| 0 <= i < 8 && Trigrams[i].0 == t;
    FindDistinct(Trigrams, i);
  }

  /** Different trigrams have different names. */
  lemma TrigramNameInjective(t: string, u: string)
    requires IsTrigram(t) && IsTrigram(u) && TrigramName(t) == TrigramName(u)
    ensures t == u
  {
    TrigramTableComplete();
    TrigramNameOfTrigram(t);
    TrigramNameOfTrigram(u);
    var i :| 0 <= i < 8 && Trigrams[i].0 == t;
    var j :| 0 <= j < 8 && Trigrams[j].0 == u;
    if i < j {
    } else if j < i {
    }
  }

  /** For a pattern both halves are named, and the pair of names determines the pattern. */
  lemma GetTrigramsDeterminesPattern(p: string, q: string)
    requires IsPattern(p) && IsPattern(q) && GetTrigrams(p) == GetTrigrams(q)
    ensures p == q
  {
    assert IsTrigram(p[..3]) && IsTrigram(p[3..]) && IsTrigram(q[..3]) && IsTrigram(q[3..]);
    TrigramNameInjective(p[..3], q[..3]);
    TrigramNameInjective(p[3..], q[3..]);
    assert p == p[..3] + p[3..];
    assert q == q[..3] + q[3..];
  }

  /** For a pattern both names come from the table. */
  lemma GetTrigramsNames(p: string)
    requires IsPattern(p)
    ensures IsTrigramName(GetTrigrams(p).superior) && IsTrigramName(GetTrigrams(p).inferior)
  {
    assert IsTrigram(p[..3]) && IsTrigram(p[3..]);
    TrigramNameOfTrigram(p[..3]);
    TrigramNameOfTrigram(p[3..]);
  }

  /** For a short string the fallback shows the raw slices: "12" keeps "12" below
      and nothing above. */
  lemma GetTrigramsFallbackExample()
    ensures GetTrigrams("12").inferior == "12" && GetTrigrams("12").superior == ""
  {
    assert Slice("12", 0, 3) == "12" && Slice("12", 3, 6) == "";
    assert TrigramName("12") == "12" by {
      FindSpec(Trigrams, "12");
    }
    assert TrigramName("") == "" by {
      FindSpec(Trigrams, "");
    }
  }

  // ---------------------------------------------------------------------------
  // HEXAGRAMS
  // ---------------------------------------------------------------------------

  /** The text fields of one hexagram, opaque to the model. */
  datatype HexText = HexText(nombre: string, chino: string, pinyin: string,
                             juicio: string, imagen: string, significado: string)

  datatype Hexagram = Hexagram(numero: int, nombre: string, chino: string, pinyin: string,
                               trigramaSuperior: string, trigramaInferior: string,
                               juicio: string, imagen: string, significado: string)

  /** `hex`: the record of hexagram `num`, with the trigram names of its pattern, or
      empty names when `num` has no pattern. */
  function Hex(num: int, text: HexText): (h: Hexagram)
    ensures h.numero == num && h.nombre == text.nombre && h.chino == text.chino
  {
    var trigs := match PatternOf(num)
      case Some(p) => GetTrigrams(p)
      case None => TrigramPair("", "");
    Hexagram(num, text.nombre, text.chino, text.pinyin, trigs.superior, trigs.inferior,
             text.juicio, text.imagen, text.significado)
  }

  /** `HEXAGRAMS`: entry `n` is `hex(n, …)` for n in 1..64. */
  function Hexagrams(texts: int -> HexText): map<int, Hexagram>
  {
    map n | 1 <= n <= 64 :: Hex(n, texts(n))
  }

  /** `HEXAGRAMS` has exactly the keys 1..64, each record's number is its key, and its
      trigram names are those of the pattern `patronParaNumero(n)`. */
  lemma HexagramsConsistent(texts: int -> HexText, n: int)
    ensures n in Hexagrams(texts) <==> 1 <= n <= 64
    ensures n in Hexagrams(texts) ==>
              var h := Hexagrams(texts)[n];
              h.numero == n && PatternOf(n).Some?
              && h.trigramaSuperior == GetTrigrams(PatternOf(n).value).superior
              && h.trigramaInferior == GetTrigrams(PatternOf(n).value).inferior
              && IsTrigramName(h.trigramaSuperior) && IsTrigramName(h.trigramaInferior)
  {
    PatternOfSpec(n);
    if 1 <= n <= 64 {
      GetTrigramsNames(PatternOf(n).value);
    }
  }

  /** `hex` for a number outside 1..64 has empty trigram names. */
  lemma HexOutOfRange(num: int, text: HexText)
    requires !(1 <= num <= 64)
    ensures Hex(num, text).trigramaSuperior == "" && Hex(num, text).trigramaInferior == ""
  {
    PatternOfSpec(num);
  }
}
