/** The pure fragments of the original desktop program `iching_4.py`: its own copy
    of the King Wen table, the name of a reading, the line sum and the state kept
    by `lanzar_y_mostrar` between presses of the button. Each is shown to agree
    with the JavaScript version of the same rule. */
module PyOracle {
  import opened Wrappers
  import opened Text
  import Lines
  import KingWen

  // ---------------------------------------------------------------------------
  // The second King Wen table
  // ---------------------------------------------------------------------------

  /** The Python `KING_WEN_MAPPING`, in the order the file writes it. */
  const PyEntries: seq<(string, int)> :=
    [
      ("111111", 1), ("000000", 2), ("100010", 3), ("010001", 4),
      ("111010", 5), ("010111", 6), ("010000", 7), ("000010", 8),
      ("111011", 9), ("110111", 10), ("111000", 11), ("000111", 12),
      ("101111", 13), ("111101", 14), ("001000", 15), ("000100", 16)]
    + [
      ("100110", 17), ("011001", 18), ("110000", 19), ("000011", 20),
      ("100101", 21), ("101001", 22), ("000001", 23), ("100000", 24),
      ("100111", 25), ("111001", 26), ("100001", 27), ("011110", 28),
      ("010010", 29), ("101101", 30), ("001110", 31), ("011100", 32)]
    + [
      ("001111", 33), ("111100", 34), ("000101", 35), ("101000", 36),
      ("101011", 37), ("110101", 38), ("001010", 39), ("010100", 40),
      ("110001", 41), ("100011", 42), ("111110", 43), ("011111", 44),
      ("000110", 45), ("011000", 46), ("010110", 47), ("011010", 48)]
    + [
      ("101110", 49), ("011101", 50), ("100100", 51), ("001001", 52),
      ("001011", 53), ("110100", 54), ("101100", 55), ("001101", 56),
      ("011011", 57), ("110110", 58), ("010011", 59), ("110010", 60),
      ("110011", 61), ("001100", 62), ("101010", 63), ("010101", 64)]

  /** The two tables are the same, key for key and in the same order. */
  lemma PyTableMatchesJs()
    ensures PyEntries == KingWen.Entries
  {
  }

  /** `KING_WEN_MAPPING.get(patron)`. */
  function PyLookup(p: string): Option<int> {
    KingWen.Find(PyEntries, p)
  }

  // ---------------------------------------------------------------------------
  // Lines, pattern, mutation
  // ---------------------------------------------------------------------------

  /** `generar_linea`: the sum of the three coins. */
  function PyGenerarLinea(a: Lines.Coin, b: Lines.Coin, c: Lines.Coin): (v: int)
    ensures 6 <= v <= 9
  {
    a + b + c
  }

  /** The sum the desktop program draws is the value the web version records. */
  lemma PyLineMatchesJs(a: Lines.Coin, b: Lines.Coin, c: Lines.Coin)
    ensures PyGenerarLinea(a, b, c) == Lines.GenerateLine(a, b, c).valor
  {
  }

  /** `''.join('1' if valor % 2 else '0' for valor in lineas)`. */
  function PyPattern(lineas: seq<int>): string {
    seq(|lineas|, i requires 0 <= i < |lineas| => if lineas[i] % 2 != 0 then '1' else '0')
  }

  /** `[7 if v == 6 else 8 if v == 9 else v for v in lineas]`. */
  function PyMutado(lineas: seq<int>): seq<int> {
    seq(|lineas|, i requires 0 <= i < |lineas| =>
      if lineas[i] == 6 then 7 else if lineas[i] == 9 then 8 else lineas[i])
  }

  /** `[i for i, valor in enumerate(lineas) if valor in (6, 9)]`. */
  function PyMutantes(lineas: seq<int>): seq<nat> {
    if lineas == [] then []
    else
      var rest := PyMutantes(lineas[..|lineas| - 1]);
      if Lines.IsChanging(lineas[|lineas| - 1]) then rest + [|lineas| - 1] else rest
  }

  /** Python's parity rule builds the same pattern as `getPatron`. */
  lemma PyPatternMatchesJs(lineas: seq<int>)
    ensures PyPattern(lineas) == Lines.Pattern(lineas)
  {
  }

  /** The mutated list is `calcularMutado`'s. */
  lemma PyMutadoMatchesJs(lineas: seq<int>)
    ensures PyMutado(lineas) == Lines.Mutate(lineas)
  {
  }

  /** The list of changing positions is `getLineasMutantes`'s. */
  lemma {:induction false} PyMutantesMatchesJs(lineas: seq<int>)
    ensures PyMutantes(lineas) == Lines.ChangingLines(lineas)
    decreases |lineas|
  {
    if lineas != [] {
      var init := lineas[..|lineas| - 1];
      PyMutantesMatchesJs(init);
      ChangingFromSnoc(init, lineas[|lineas| - 1], 0);
      assert init + [lineas[|lineas| - 1]] == lineas;
    }
  }

  /** Appending one value extends the list of changing positions at its end. */
  lemma {:induction false} ChangingFromSnoc(init: seq<int>, v: int, from: nat)
    requires from <= |init|
    ensures Lines.ChangingFrom(init + [v], from)
            == Lines.ChangingFrom(init, from) + (if Lines.IsChanging(v) then [|init|] else [])
    decreases |init| - from
  {
    var l := init + [v];
    if from < |init| {
      ChangingFromSnoc(init, v, from + 1);
      assert l[from] == init[from];
    } else {
      assert Lines.ChangingFrom(l, from + 1) == [];
    }
  }

  // ---------------------------------------------------------------------------
  // Names
  // ---------------------------------------------------------------------------

  /** `HEXAGRAMAS.get(num, f"Hexagrama {num}")`: the name table is a parameter. */
  function NameOf(num: int, names: map<int, string>): string {
    if num in names then names[num] else "Hexagrama " + IntString(num)
  }

  /** `get_hexagrama_nombre`. */
  function HexagramaNombre(lineas: seq<int>, names: map<int, string>): (r: string)
  {
    var patron := PyPattern(lineas);
    match PyLookup(patron)
    case None => "Hexagrama desconocido para el patr\U{00F3}n " + patron
    case Some(num) => IntString(num) + ". " + NameOf(num, names)
  }

  /** Six lines always name a hexagram, "{num}. {name}" with the King Wen number
      of the JavaScript pattern; any other length names none. */
  lemma HexagramaNombreSpec(lineas: seq<int>, names: map<int, string>)
    ensures |lineas| == 6 ==>
              KingWen.Lookup(Lines.Pattern(lineas)).Some?
              && HexagramaNombre(lineas, names)
                 == IntString(KingWen.Lookup(Lines.Pattern(lineas)).value) + ". "
                    + NameOf(KingWen.Lookup(Lines.Pattern(lineas)).value, names)
    ensures |lineas| != 6 ==>
              HexagramaNombre(lineas, names)
              == "Hexagrama desconocido para el patr\U{00F3}n " + Lines.Pattern(lineas)
  {
    PyTableMatchesJs();
    PyPatternMatchesJs(lineas);
    var p := Lines.Pattern(lineas);
    KingWen.LookupSpec(p);
    if |lineas| == 6 {
      assert KingWen.IsPattern(p);
    }
  }

  /** "{num}. {name}" determines `num`. */
  lemma NumberedNameInjective(na: nat, nb: nat, x: string, y: string)
    requires DecimalString(na) + ". " + x == DecimalString(nb) + ". " + y
    ensures na == nb
  {
    var da, db := DecimalString(na), DecimalString(nb);
    assert da + ". " + x == da + (". " + x);
    assert db + ". " + y == db + (". " + y);
    DigitPrefixUnique(DecimalString(na), ". " + x, DecimalString(nb), ". " + y);
    DecimalStringInjective(na, nb);
  }

  /** Two six-line readings get the same name only when their patterns are the same. */
  lemma HexagramaNombreInjective(a: seq<int>, b: seq<int>, names: map<int, string>)
    requires |a| == 6 && |b| == 6
    requires HexagramaNombre(a, names) == HexagramaNombre(b, names)
    ensures Lines.Pattern(a) == Lines.Pattern(b)
  {
    var pa := Lines.Pattern(a);
    var pb := Lines.Pattern(b);
    HexagramaNombreSpec(a, names);
    HexagramaNombreSpec(b, names);
    KingWen.LookupSpec(pa);
    KingWen.LookupSpec(pb);
    var na: nat := KingWen.Lookup(pa).value;
    var nb: nat := KingWen.Lookup(pb).value;
    assert IntString(na) == DecimalString(na) && IntString(nb) == DecimalString(nb);
    NumberedNameInjective(na, nb, NameOf(na, names), NameOf(nb, names));
    KingWen.LookupInjective(pa, pb);
  }

  // ---------------------------------------------------------------------------
  // The question hash
  // ---------------------------------------------------------------------------

  /** `question_hash` as the first press sets it: the sum of `ord` over the stripped
      question, 0 for an empty one. */
  function PyQuestionHash(entryText: string): nat {
    var pregunta := Trim(entryText, IsPySpace);
    if pregunta != [] then Lines.CodePointSum(pregunta) else 0
  }

  /** `hashPregunta` as written and the Python hash of the same text agree exactly
      when the text stays inside the Basic Multilingual Plane. */
  lemma JsHashAgreesIffBmp(s: string)
    ensures Lines.QuestionHash(Some(s)) == Lines.CodePointSum(s)
            <==> forall k :: 0 <= k < |s| ==> s[k] as int < 0x10000
  {
    Lines.CodeUnitSumVsCodePointSum(s);
  }

  /** One emoji is enough: `charCodeAt(0)` reads its high surrogate 0xD83D. */
  lemma JsHashDiffersOnEmoji()
    ensures Lines.QuestionHash(Some("\U{1F600}")) == 55357
    ensures Lines.CodePointSum("\U{1F600}") == 128512
    ensures PyQuestionHash("\U{1F600}") == 128512
  {
    assert Trim("\U{1F600}", IsPySpace) == "\U{1F600}" by {
      assert !IsPySpace('\U{1F600}');
    }
  }

  /** The corrected hash is Python's for every text. */
  lemma CodePointHashMatchesPython(s: string)
    ensures PyQuestionHash(s) == Lines.CodePointHash(Some(Trim(s, IsPySpace)))
  {
  }

  /** The corrected hash still gives the values the tests expect. */
  lemma CodePointHashExamples()
    ensures Lines.CodePointHash(Some("AB")) == 131
    ensures Lines.CodePointHash(Some("")) == 0 && Lines.CodePointHash(None) == 0
  {
    assert "AB"[1..] == "B";
  }

  // ---------------------------------------------------------------------------
  // `lanzar_y_mostrar`
  // ---------------------------------------------------------------------------

  /** The globals the button handler reads and writes. */
  datatype PyState = PyState(lineas: seq<int>, questionHash: nat, historial: seq<string>)

  /** What the window shows once the sixth line is cast. */
  datatype Shown = Shown(original: string, mutado: string, mutantes: seq<nat>)

  const Rule: string := "----------------------------------------"

  /** `actualizar_historial(pregunta, original, mutado)`. */
  function HistorialEntry(pregunta: string, original: string, mutado: string): string {
    "Pregunta: " + pregunta + "\nOriginal: " + original
    + (if mutado != "" && original != mutado then "\nMutado: " + mutado else "")
    + "\n" + Rule + "\n"
  }

  const Initial: PyState := PyState([], 0, [])

  /** One press of the button: the text in the question box at that moment and the
      three coins tossed are inputs. */
  function LanzarYMostrar(st: PyState, entryText: string, a: Lines.Coin, b: Lines.Coin, c: Lines.Coin,
                          names: map<int, string>): (r: (PyState, Option<Shown>))
  {
    var qh := if |st.lineas| == 0 then PyQuestionHash(entryText) else st.questionHash;
    if |st.lineas| >= 6 then (st.(questionHash := qh), None)
    else
      var lineas := st.lineas + [PyGenerarLinea(a, b, c)];
      if |lineas| == 6 then
        var mutantes := PyMutantes(lineas);
        var mutado := PyMutado(lineas);
        var nombreOriginal := HexagramaNombre(lineas, names);
        var nombreMutado := HexagramaNombre(mutado, names);
        var etiqueta := if lineas == mutado then "Sin mutaciones" else "Mutado: " + nombreMutado;
        var entry := HistorialEntry(Trim(entryText, IsPySpace), nombreOriginal, nombreMutado);
        (PyState(lineas, qh, st.historial + [entry]), Some(Shown("Original: " + nombreOriginal, etiqueta, mutantes)))
      else
        (PyState(lineas, qh, st.historial), None)
  }

  /** The hash is taken from the question box on the first press only; at six lines
      a press changes nothing; otherwise it appends one line, and the reading is
      shown (and logged) exactly when that line is the sixth. */
  lemma LanzarYMostrarSpec(st: PyState, entryText: string, a: Lines.Coin, b: Lines.Coin, c: Lines.Coin,
                           names: map<int, string>)
    ensures var (st', shown) := LanzarYMostrar(st, entryText, a, b, c, names);
            (st.lineas == [] ==> st'.questionHash == PyQuestionHash(entryText))
            && (st.lineas != [] ==> st'.questionHash == st.questionHash)
            && (|st.lineas| >= 6 ==> st' == st && shown.None?)
            && (|st.lineas| < 6 ==>
                  st'.lineas == st.lineas + [Lines.GenerateLine(a, b, c).valor]
                  && (shown.Some? <==> |st'.lineas| == 6)
                  && (shown.Some? <==> |st'.historial| == |st.historial| + 1)
                  && (shown.None? ==> st'.historial == st.historial))
  {
  }

  /** On the sixth line the changing positions and the mutated reading are the
      JavaScript ones, "Sin mutaciones" is shown exactly when no line changes, and
      the log entry names the mutated hexagram exactly then too. */
  lemma CompletionMatchesJs(st: PyState, entryText: string, a: Lines.Coin, b: Lines.Coin, c: Lines.Coin,
                            names: map<int, string>)
    requires |st.lineas| == 5
    ensures var (st', shown) := LanzarYMostrar(st, entryText, a, b, c, names);
            var l := st'.lineas;
            var nombreOriginal := HexagramaNombre(l, names);
            var nombreMutado := HexagramaNombre(Lines.Mutate(l), names);
            shown.Some?
            && shown.value.mutantes == Lines.ChangingLines(l)
            && (shown.value.mutado == "Sin mutaciones" <==> !Lines.HasChanges(l))
            && st'.historial[|st'.historial| - 1]
               == "Pregunta: " + Trim(entryText, IsPySpace) + "\nOriginal: " + nombreOriginal
                  + (if Lines.HasChanges(l) then "\nMutado: " + nombreMutado else "")
                  + "\n" + Rule + "\n"
  {
    var l := st.lineas + [PyGenerarLinea(a, b, c)];
    PyMutantesMatchesJs(l);
    PyMutadoMatchesJs(l);
    MutatedNameLoggedIffChanges(l, names);
    EtiquetaIffNoChanges(l, HexagramaNombre(PyMutado(l), names));
  }

  /** The log names the mutated hexagram exactly when some line changes: the two
      names differ then, and coincide otherwise. */
  lemma MutatedNameLoggedIffChanges(l: seq<int>, names: map<int, string>)
    requires |l| == 6
    ensures var original := HexagramaNombre(l, names);
            var mutado := HexagramaNombre(Lines.Mutate(l), names);
            (mutado != "" && original != mutado) <==> Lines.HasChanges(l)
  {
    var m := Lines.Mutate(l);
    Lines.MutateFixedIffNoChanges(l);
    HexagramaNombreSpec(m, names);
    if Lines.HasChanges(l) && HexagramaNombre(l, names) == HexagramaNombre(m, names) {
      HexagramaNombreInjective(l, m, names);
      var i :| 0 <= i < |l| && Lines.IsChanging(l[i]);
      Lines.PatternFlipsAtChangingLines(l);
      assert false;
    }
  }

  /** "Sin mutaciones" is shown exactly when no line changes. */
  lemma EtiquetaIffNoChanges(l: seq<int>, nombreMutado: string)
    ensures (if l == PyMutado(l) then "Sin mutaciones" else "Mutado: " + nombreMutado) == "Sin mutaciones"
            <==> !Lines.HasChanges(l)
  {
    PyMutadoMatchesJs(l);
    Lines.MutateFixedIffNoChanges(l);
    if l != PyMutado(l) {
      assert ("Mutado: " + nombreMutado)[0] == 'M';
    }
  }

  /** `reiniciar`: the lines and the hash go back to their initial values; the log
      of earlier readings stays. */
  function Reiniciar(st: PyState): (r: PyState)
    ensures r.lineas == [] && r.questionHash == 0 && r.historial == st.historial
    ensures r == Initial.(historial := st.historial)
  {
    PyState([], 0, st.historial)
  }

  /** Six presses after a reset always complete a reading, and a seventh changes nothing. */
  lemma SixPressesComplete(st: PyState, t: string, a: Lines.Coin, b: Lines.Coin, c: Lines.Coin,
                           names: map<int, string>)
    requires |st.lineas| <= 6
    ensures |LanzarYMostrar(st, t, a, b, c, names).0.lineas| <= 6
    ensures |st.lineas| == 6 ==> LanzarYMostrar(st, t, a, b, c, names).0 == st
  {
  }
}
