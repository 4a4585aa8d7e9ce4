/** What `src/App.jsx` does differently from the hook: on the sixth line the
    reading is sent as the JSON body of `POST /api/consultas`. */
module App {
  import opened Wrappers
  import opened Text
  import Lines
  import KingWen
  import Session
  import Validation

  /** The line values as JSON numbers. */
  function LineasJson(lineas: seq<int>): (r: seq<Validation.JsValue>)
    ensures |r| == |lineas|
    ensures forall i :: 0 <= i < |lineas| ==> r[i] == Validation.Num(lineas[i] as real)
  {
    seq(|lineas|, i requires 0 <= i < |lineas| => Validation.Num(lineas[i] as real))
  }

  /** `JSON.stringify` of the reading: an `undefined` property is left out, a
      `null` one is written as null. */
  function PostBody(r: Session.Consulta): Validation.Body {
    var base := map[
      "pregunta" := Validation.Str(r.pregunta),
      "lineas" := Validation.Arr(LineasJson(r.lineas)),
      "nombreOriginal" := Validation.Str(r.nombreOriginal),
      "nombreMutado" := if r.nombreMutado.Some? then Validation.Str(r.nombreMutado.value) else Validation.Null,
      "tieneMutaciones" := Validation.Bool(r.tieneMutaciones)];
    var withOriginal := if r.hexOriginal.Some? then base["hexOriginal" := Validation.Num(r.hexOriginal.value as real)] else base;
    if r.hexMutado.Some? then withOriginal["hexMutado" := Validation.Num(r.hexMutado.value as real)] else withOriginal
  }

  /** `lanzarMonedas` in the component: the hook's transition, with the saved
      reading turned into the request body. */
  function LanzarMonedas(s: Session.State, a: Lines.Coin, b: Lines.Coin, c: Lines.Coin,
                         texts: int -> KingWen.HexText): (r: (Session.State, Option<Validation.Body>))
    ensures r.0 == Session.LanzarMonedas(s, a, b, c, texts).0
    ensures r.1.Some? <==> Session.LanzarMonedas(s, a, b, c, texts).1.Some?
    ensures r.1.Some? ==> r.1.value == PostBody(Session.LanzarMonedas(s, a, b, c, texts).1.value)
  {
    var (s', saved) := Session.LanzarMonedas(s, a, b, c, texts);
    (s', if saved.Some? then Some(PostBody(saved.value)) else None)
  }

  /** A complete reading: six values from 6 to 9 and hexagram numbers in 1..64. */
  predicate WellFormed(r: Session.Consulta) {
    && |r.lineas| == 6 && (forall i :: 0 <= i < 6 ==> 6 <= r.lineas[i] <= 9)
    && r.hexOriginal.Some? && 1 <= r.hexOriginal.value <= 64
    && (r.hexMutado.Some? ==> 1 <= r.hexMutado.value <= 64)
  }

  /** `body` holds the fields of reading `r` the validator reads: the text and
      line values as they are, a number only when it is defined, and `null` for
      a missing mutated name. */
  predicate Carries(body: Validation.Body, r: Session.Consulta) {
    && Validation.Get(body, "pregunta") == Some(Validation.Str(r.pregunta))
    && Validation.Get(body, "lineas")
       == Some(Validation.Arr(LineasJson(r.lineas)))
    && Validation.Get(body, "nombreOriginal") == Some(Validation.Str(r.nombreOriginal))
    && Validation.Get(body, "hexOriginal")
       == (if r.hexOriginal.Some? then Some(Validation.Num(r.hexOriginal.value as real)) else None)
    && Validation.Get(body, "hexMutado")
       == (if r.hexMutado.Some? then Some(Validation.Num(r.hexMutado.value as real)) else None)
    && Validation.Get(body, "nombreMutado")
       == Some(if r.nombreMutado.Some? then Validation.Str(r.nombreMutado.value) else Validation.Null)
  }

  /** The fields the validator reads, as the posted body holds them. */
  lemma PostBodyFields(r: Session.Consulta)
    ensures Carries(PostBody(r), r)
  {
    assert |"hexOriginal"| == 11 && |"hexMutado"| == 9;
  }

  /** For a complete reading the server's verdict depends on the text lengths only. */
  lemma PostBodyAccepted(r: Session.Consulta)
    requires WellFormed(r)
    ensures Validation.ValidateConsultaBody(PostBody(r)).None?
            <==> Utf16Length(r.pregunta) <= 1000 && Utf16Length(r.nombreOriginal) <= 200
                 && (r.nombreMutado.None? || Utf16Length(r.nombreMutado.value) <= 200)
  {
    PostBodyFields(r);
    CarriedBodyAccepted(PostBody(r), r);
  }

  /** Any body carrying a complete reading is judged on the text lengths only. */
  lemma CarriedBodyAccepted(body: Validation.Body, r: Session.Consulta)
    requires WellFormed(r) && Carries(body, r)
    ensures Validation.ValidateConsultaBody(body).None?
            <==> Utf16Length(r.pregunta) <= 1000 && Utf16Length(r.nombreOriginal) <= 200
                 && (r.nombreMutado.None? || Utf16Length(r.nombreMutado.value) <= 200)
  {
    ReadingLineValues(r.lineas);
  }

  /** Six values from 6 to 9 pass the validator's line check. */
  lemma ReadingLineValues(lineas: seq<int>)
    requires |lineas| == 6 && forall i :: 0 <= i < 6 ==> 6 <= lineas[i] <= 9
    ensures forall i :: 0 <= i < 6 ==> Validation.IsLineValue(LineasJson(lineas)[i])
  {
    forall i | 0 <= i < 6 ensures Validation.IsLineValue(LineasJson(lineas)[i]) {
      assert 6 <= lineas[i] <= 9;
    }
  }

  /** The server's validator accepts what the component posts exactly when the
      question fits in 1000 UTF-16 units and the names in 200: every other check
      holds by construction of the reading. */
  lemma PostedBodyAccepted(s: Session.State, a: Lines.Coin, b: Lines.Coin, c: Lines.Coin,
                           texts: int -> KingWen.HexText)
    requires Session.Valid(s)
    requires LanzarMonedas(s, a, b, c, texts).1.Some?
    ensures var r := Session.BuildConsulta(s.confirmada, s.lineas + [Lines.GenerateLine(a, b, c).valor], texts);
            Validation.ValidateConsultaBody(LanzarMonedas(s, a, b, c, texts).1.value).None?
            <==> Utf16Length(r.pregunta) <= 1000 && Utf16Length(r.nombreOriginal) <= 200
                 && (r.nombreMutado.None? || Utf16Length(r.nombreMutado.value) <= 200)
  {
    var lineas := s.lineas + [Lines.GenerateLine(a, b, c).valor];
    var r := Session.BuildConsulta(s.confirmada, lineas, texts);
    Session.ConsultaOriginal(s.confirmada, lineas, texts);
    Session.ConsultaMutado(s.confirmada, lineas, texts);
    KingWen.LookupSpec(Lines.Pattern(lineas));
    if r.hexMutado.Some? {
      KingWen.LookupSpec(Lines.Pattern(Lines.Mutate(lineas)));
    }
    assert forall i :: 0 <= i < 6 ==> 6 <= lineas[i] <= 9;
    assert WellFormed(r);
    PostBodyAccepted(r);
  }
}
