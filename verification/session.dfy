/** The casting session of `src/hooks/useOracle.js` as an immutable state record
    stepped by pure transitions. `src/App.jsx` holds the same state and the same
    transitions; the module `App` adds what differs there (the reading is posted
    to the server instead of handed to a callback). The three coins of a cast and
    the hexagram texts are inputs. */
module Session {
  import opened Wrappers
  import opened Text
  import Lines
  import KingWen

  datatype Phase = Pregunta | Lanzando | Resultado

  /** The hook's state: the question being typed, the confirmed question, the
      lines cast so far, the last cast, the phase and the line being animated. */
  datatype State = State(pregunta: string, confirmada: string, lineas: seq<int>,
                         ultimaMoneda: Option<Lines.Line>, fase: Phase, animatingLine: int)

  const Initial: State := State("", "", [], None, Pregunta, -1)

  /** The reading handed to `onGuardarConsulta` once the sixth line is cast. */
  datatype Consulta = Consulta(pregunta: string, lineas: seq<int>,
                               hexOriginal: Option<int>, nombreOriginal: string,
                               hexMutado: Option<int>, nombreMutado: Option<string>,
                               tieneMutaciones: bool)

  /** A reachable state: at most six lines, each a value from 6 to 9, and the
      result phase exactly when the reading is complete. */
  predicate Valid(s: State) {
    && |s.lineas| <= 6
    && (forall i :: 0 <= i < |s.lineas| ==> 6 <= s.lineas[i] <= 9)
    && (s.fase == Resultado <==> |s.lineas| == 6)
  }

  // ---------------------------------------------------------------------------
  // Hexagram info
  // ---------------------------------------------------------------------------

  /** `getHexagramaInfo`: the `HEXAGRAMS` record of the pattern's King Wen number,
      or `None` (null) when the pattern is not a key of the table. */
  function HexagramaInfo(lineas: seq<int>, texts: int -> KingWen.HexText): (r: Option<KingWen.Hexagram>)
    ensures r.Some? <==> |lineas| == 6
    ensures r.Some? ==> KingWen.Lookup(Lines.Pattern(lineas)).Some?
                        && r.value.numero == KingWen.Lookup(Lines.Pattern(lineas)).value
                        && 1 <= r.value.numero <= 64
  {
    var patron := Lines.Pattern(lineas);
    KingWen.LookupSpec(patron);
    match KingWen.Lookup(patron)
    case None => None
    case Some(num) =>
      if num == 0 then None
      else
        KingWen.HexagramsConsistent(texts, num);
        Some(KingWen.Hexagrams(texts)[num].(numero := num))
  }

  /** The info is the `HEXAGRAMS` entry itself, trigram names included. */
  lemma HexagramaInfoIsEntry(lineas: seq<int>, texts: int -> KingWen.HexText)
    requires |lineas| == 6
    ensures KingWen.Lookup(Lines.Pattern(lineas)).Some?
    ensures var n := KingWen.Lookup(Lines.Pattern(lineas)).value;
            HexagramaInfo(lineas, texts) == Some(KingWen.Hex(n, texts(n)))
            && KingWen.PatternOf(n) == Some(Lines.Pattern(lineas))
  {
    var p := Lines.Pattern(lineas);
    assert KingWen.IsPattern(p);
    KingWen.LookupRoundTrip(p);
  }

  /** `${numero}. ${chino} - ${nombre}`. */
  function NombreCompleto(h: KingWen.Hexagram): string {
    IntString(h.numero) + ". " + h.chino + " - " + h.nombre
  }

  // ---------------------------------------------------------------------------
  // Derived values
  // ---------------------------------------------------------------------------

  function HexOriginal(s: State, texts: int -> KingWen.HexText): Option<KingWen.Hexagram> {
    if |s.lineas| == 6 then HexagramaInfo(s.lineas, texts) else None
  }

  function LineasMutantes(s: State): seq<nat> {
    if |s.lineas| == 6 then Lines.ChangingLines(s.lineas) else []
  }

  predicate TieneMutaciones(s: State) {
    |s.lineas| == 6 && Lines.HasChanges(s.lineas)
  }

  function HexMutado(s: State, texts: int -> KingWen.HexText): Option<KingWen.Hexagram> {
    if TieneMutaciones(s) then HexagramaInfo(Lines.Mutate(s.lineas), texts) else None
  }

  /** The derived values: nothing before the sixth line; then the original hexagram
      always, the changing lines, and a mutated hexagram exactly when some line
      changes, a different hexagram from the original. */
  lemma DerivedValues(s: State, texts: int -> KingWen.HexText)
    ensures HexOriginal(s, texts).Some? <==> |s.lineas| == 6
    ensures |s.lineas| != 6 ==> LineasMutantes(s) == [] && HexMutado(s, texts).None?
    ensures HexMutado(s, texts).Some? <==> TieneMutaciones(s)
    ensures TieneMutaciones(s) <==> |LineasMutantes(s)| > 0
    ensures HexMutado(s, texts).Some? ==> HexMutado(s, texts).value.numero != HexOriginal(s, texts).value.numero
  {
    Lines.HasChangesIffChangingLines(s.lineas);
    if TieneMutaciones(s) {
      MutatedIsAnotherHexagram(s.lineas);
    }
  }

  /** A six-line reading with a changing line mutates into a different hexagram. */
  lemma MutatedIsAnotherHexagram(lineas: seq<int>)
    requires |lineas| == 6 && Lines.HasChanges(lineas)
    ensures KingWen.Lookup(Lines.Pattern(Lines.Mutate(lineas))).Some?
    ensures KingWen.Lookup(Lines.Pattern(lineas)).Some?
    ensures KingWen.Lookup(Lines.Pattern(Lines.Mutate(lineas))) != KingWen.Lookup(Lines.Pattern(lineas))
  {
    var p := Lines.Pattern(lineas);
    var q := Lines.Pattern(Lines.Mutate(lineas));
    assert KingWen.IsPattern(p) && KingWen.IsPattern(q);
    KingWen.LookupSpec(p);
    KingWen.LookupSpec(q);
    var i :| 0 <= i < |lineas| && Lines.IsChanging(lineas[i]);
    Lines.PatternFlipsAtChangingLines(lineas);
    assert q[i] != p[i];
    if KingWen.Lookup(q) == KingWen.Lookup(p) {
      KingWen.LookupInjective(q, p);
      assert false;
    }
  }

  // ---------------------------------------------------------------------------
  // Transitions
  // ---------------------------------------------------------------------------

  /** `setPregunta`: the text in the question box. */
  function SetPregunta(s: State, text: string): (r: State)
    ensures r.pregunta == text && r.(pregunta := s.pregunta) == s
  {
    s.(pregunta := text)
  }

  /** `confirmarPregunta`: nothing happens for a blank question; otherwise the
      trimmed question is confirmed and a fresh cast starts. */
  function ConfirmarPregunta(s: State): (r: State)
    ensures Trim(s.pregunta, IsJsSpace) == [] ==> r == s
    ensures Trim(s.pregunta, IsJsSpace) != [] ==>
              && r.confirmada == Trim(s.pregunta, IsJsSpace)
              && r.fase == Lanzando && r.lineas == [] && r.ultimaMoneda == None
              && r.pregunta == s.pregunta && r.animatingLine == s.animatingLine
  {
    var q := Trim(s.pregunta, IsJsSpace);
    if q == [] then s
    else s.(confirmada := q, fase := Lanzando, lineas := [], ultimaMoneda := None)
  }

  /** `consultaGeneral`: a cast without a question. */
  function ConsultaGeneral(s: State): (r: State)
    ensures r.confirmada == [] && r.fase == Lanzando && r.lineas == [] && r.ultimaMoneda == None
    ensures r.pregunta == s.pregunta && r.animatingLine == s.animatingLine
  {
    s.(confirmada := "", fase := Lanzando, lineas := [], ultimaMoneda := None)
  }

  /** `reiniciar`: every field back to its initial value. */
  function Reiniciar(s: State): (r: State)
    ensures r == Initial && r.fase == Pregunta && r.lineas == [] && r.pregunta == []
  {
    State("", "", [], None, Pregunta, -1)
  }

  /** The reading the hook saves once `lineas` is complete (the Spanish texts). */
  function BuildConsulta(pregunta: string, lineas: seq<int>, texts: int -> KingWen.HexText): Consulta {
    var original := HexagramaInfo(lineas, texts);
    var tieneMut := Lines.HasChanges(lineas);
    var mutado := if tieneMut then HexagramaInfo(Lines.Mutate(lineas), texts) else None;
    Consulta(pregunta, lineas,
             if original.Some? then Some(original.value.numero) else None,
             if original.Some? then NombreCompleto(original.value) else "Desconocido",
             if mutado.Some? then Some(mutado.value.numero) else None,
             if mutado.Some? then Some(NombreCompleto(mutado.value)) else None,
             tieneMut)
  }

  /** `lanzarMonedas` with the three coins it tossed: a no-op at six lines,
      otherwise one more line; on the sixth the phase becomes the result and the
      reading is returned for saving. */
  function LanzarMonedas(s: State, a: Lines.Coin, b: Lines.Coin, c: Lines.Coin,
                         texts: int -> KingWen.HexText): (r: (State, Option<Consulta>))
  {
    if |s.lineas| >= 6 then (s, None)
    else
      var resultado := Lines.GenerateLine(a, b, c);
      var nuevas := s.lineas + [resultado.valor];
      var s' := s.(ultimaMoneda := Some(resultado), animatingLine := |s.lineas|, lineas := nuevas);
      if |nuevas| == 6 then
        (s'.(fase := Resultado), Some(BuildConsulta(s.confirmada, nuevas, texts)))
      else (s', None)
  }

  /** A cast never grows the list past six, appends exactly one value at the end
      and keeps the earlier lines; a cast saves the reading exactly when it adds
      the sixth line, together with the switch to the result phase. Casts are
      taken one at a time: two casts overlapping across the await are not
      modelled. */
  lemma LanzarMonedasSpec(s: State, a: Lines.Coin, b: Lines.Coin, c: Lines.Coin,
                          texts: int -> KingWen.HexText)
    ensures var (r, saved) := LanzarMonedas(s, a, b, c, texts);
            && (|s.lineas| >= 6 ==> r == s && saved.None?)
            && (|s.lineas| < 6 ==>
                  && r.lineas == s.lineas + [Lines.GenerateLine(a, b, c).valor]
                  && r.lineas[..|s.lineas|] == s.lineas
                  && r.confirmada == s.confirmada && r.pregunta == s.pregunta
                  && (saved.Some? <==> |r.lineas| == 6)
                  && (saved.Some? ==> r.fase == Resultado && saved.value.lineas == r.lineas
                                      && saved.value.pregunta == s.confirmada
                                      && saved.value == BuildConsulta(s.confirmada, r.lineas, texts))
                  && (saved.None? ==> r.fase == s.fase))
  {
    if |s.lineas| < 6 {
      var r := LanzarMonedas(s, a, b, c, texts).0;
      assert r.lineas[..|s.lineas|] == s.lineas;
    }
  }

  /** Every transition keeps a state reachable. */
  lemma TransitionsPreserveValid(s: State, text: string, a: Lines.Coin, b: Lines.Coin, c: Lines.Coin,
                                 texts: int -> KingWen.HexText)
    requires Valid(s)
    ensures Valid(Initial)
    ensures Valid(SetPregunta(s, text))
    ensures Valid(ConfirmarPregunta(s))
    ensures Valid(ConsultaGeneral(s))
    ensures Valid(Reiniciar(s))
    ensures Valid(LanzarMonedas(s, a, b, c, texts).0)
  {
    if |s.lineas| < 6 {
      var r := LanzarMonedas(s, a, b, c, texts).0;
      assert forall i :: 0 <= i < |s.lineas| ==> r.lineas[i] == s.lineas[i];
    }
  }

  /** The saved reading: the original hexagram is the King Wen number of the
      lines and always known, named "{n}. {chino} - {nombre}". */
  lemma ConsultaOriginal(pregunta: string, lineas: seq<int>, texts: int -> KingWen.HexText)
    requires |lineas| == 6
    ensures KingWen.Lookup(Lines.Pattern(lineas)).Some?
    ensures var r := BuildConsulta(pregunta, lineas, texts);
            var n := KingWen.Lookup(Lines.Pattern(lineas)).value;
            && r.pregunta == pregunta && r.lineas == lineas
            && r.tieneMutaciones == Lines.HasChanges(lineas)
            && r.hexOriginal == Some(n)
            && r.nombreOriginal == DecimalString(n) + ". " + texts(n).chino + " - " + texts(n).nombre
  {
    HexagramaInfoIsEntry(lineas, texts);
    var n := KingWen.Lookup(Lines.Pattern(lineas)).value;
    KingWen.LookupSpec(Lines.Pattern(lineas));
    assert IntString(n) == DecimalString(n);
  }

  /** The mutated hexagram and its name are present exactly when some line changes,
      and the mutated hexagram is then the King Wen number of the mutated lines,
      never the original one. */
  lemma ConsultaMutado(pregunta: string, lineas: seq<int>, texts: int -> KingWen.HexText)
    requires |lineas| == 6
    ensures var r := BuildConsulta(pregunta, lineas, texts);
            && (r.hexMutado.None? <==> !r.tieneMutaciones)
            && (r.nombreMutado.None? <==> !r.tieneMutaciones)
            && (r.hexMutado.Some? ==> r.hexMutado != r.hexOriginal
                                      && r.hexMutado == KingWen.Lookup(Lines.Pattern(Lines.Mutate(lineas))))
  {
    if Lines.HasChanges(lineas) {
      MutatedIsAnotherHexagram(lineas);
    }
  }

  /** From a fresh cast, six casts complete the reading and save it. */
  lemma SixCastsComplete(s: State, coins: seq<(Lines.Coin, Lines.Coin, Lines.Coin)>,
                         texts: int -> KingWen.HexText)
    requires s.lineas == [] && |coins| == 6
    ensures |Run(s, coins, texts).lineas| == 6 && Run(s, coins, texts).fase == Resultado
  {
    RunLength(s, coins, texts);
  }

  /** The state after casting with each triple of coins in turn. */
  function Run(s: State, coins: seq<(Lines.Coin, Lines.Coin, Lines.Coin)>,
               texts: int -> KingWen.HexText): State
    decreases |coins|
  {
    if coins == [] then s
    else Run(LanzarMonedas(s, coins[0].0, coins[0].1, coins[0].2, texts).0, coins[1..], texts)
  }

  /** Casting grows the list one line at a time up to six and no further. */
  lemma {:induction false} RunLength(s: State, coins: seq<(Lines.Coin, Lines.Coin, Lines.Coin)>,
                                     texts: int -> KingWen.HexText)
    requires |s.lineas| <= 6
    ensures |Run(s, coins, texts).lineas| == if |s.lineas| + |coins| <= 6 then |s.lineas| + |coins| else 6
    ensures |s.lineas| + |coins| >= 6 && |s.lineas| < 6 ==> Run(s, coins, texts).fase == Resultado
    ensures |s.lineas| + |coins| < 6 ==> Run(s, coins, texts).fase == s.fase
    ensures |s.lineas| == 6 ==> Run(s, coins, texts) == s
    decreases |coins|
  {
    if coins != [] {
      var s' := LanzarMonedas(s, coins[0].0, coins[0].1, coins[0].2, texts).0;
      RunLength(s', coins[1..], texts);
    }
  }
}
