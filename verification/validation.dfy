/** The request-body validators of `server/index.js`. A body is the object
    `express.json` parsed; a key the object lacks reads as `undefined`. */
module Validation {
  import opened Wrappers
  import opened Text

  /** A parsed JSON value. JSON has no `undefined` and `JSON.parse` never gives NaN,
      but a literal too large for a double (`1e400`) gives an infinity, which
      fails every range check here as any real outside the range does. A number
      is an exact real: the rounding of doubles is not modelled. */
  datatype JsValue =
    | Null
    | Bool(b: bool)
    | Num(n: real)
    | Str(s: string)
    | Arr(items: seq<JsValue>)
    | Obj(fields: map<string, JsValue>)

  /** A request body: its own properties. */
  type Body = map<string, JsValue>

  /** `body.k`: `None` for `undefined`. */
  function Get(body: Body, k: string): Option<JsValue> {
    if k in body then Some(body[k]) else None
  }

  /** `typeof v === 'string' && v.length <= max` (the length in UTF-16 units). */
  predicate IsTextUpTo(v: Option<JsValue>, max: nat) {
    v.Some? && v.value.Str? && Utf16Length(v.value.s) <= max
  }

  /** `typeof v === 'number' && !(v < lo) && !(v > hi)`. */
  predicate IsNumberIn(v: Option<JsValue>, lo: real, hi: real) {
    v.Some? && v.value.Num? && lo <= v.value.n <= hi
  }

  /** `v === undefined || v === null`. */
  predicate IsAbsent(v: Option<JsValue>) {
    v.None? || v.value.Null?
  }

  /** `[6, 7, 8, 9].includes(v)`. */
  predicate IsLineValue(v: JsValue) {
    v == Num(6.0) || v == Num(7.0) || v == Num(8.0) || v == Num(9.0)
  }

  /** `Array.isArray(v) && v.length === 6`. */
  predicate IsSixArray(v: Option<JsValue>) {
    v.Some? && v.value.Arr? && |v.value.items| == 6
  }

  /** `v.every(x => [6, 7, 8, 9].includes(x))` for an array of six. */
  predicate AllLineValues(v: Option<JsValue>)
    requires IsSixArray(v)
  {
    forall i :: 0 <= i < 6 ==> IsLineValue(v.value.items[i])
  }

  const MsgPregunta := "pregunta debe ser texto de m\U{00E1}ximo 1000 caracteres"
  const MsgLineasArray := "lineas debe ser un array de 6 elementos"
  const MsgLineasValues := "lineas solo puede contener valores 6, 7, 8 o 9"
  const MsgHexOriginal := "hexOriginal debe ser un n\U{00FA}mero entre 1 y 64"
  const MsgNombreOriginal := "nombreOriginal debe ser texto de m\U{00E1}ximo 200 caracteres"
  const MsgHexMutado := "hexMutado debe ser un n\U{00FA}mero entre 1 y 64"
  const MsgNombreMutado := "nombreMutado debe ser texto de m\U{00E1}ximo 200 caracteres"
  const MsgHexagrama := "hexagrama debe ser un n\U{00FA}mero entre 1 y 64"
  const MsgNombreHexagrama := "nombreHexagrama inv\U{00E1}lido"
  const MsgJuicio := "juicio inv\U{00E1}lido"
  const MsgImagen := "imagen inv\U{00E1}lido"

  // ---------------------------------------------------------------------------
  // POST /api/consultas
  // ---------------------------------------------------------------------------

  /** `validateConsultaBody`: `None` for `null` (valid), otherwise the message of
      the first check that fails, in the order the source writes them. */
  function ValidateConsultaBody(body: Body): Option<string> {
    var pregunta := Get(body, "pregunta");
    var lineas := Get(body, "lineas");
    var hexOriginal := Get(body, "hexOriginal");
    var nombreOriginal := Get(body, "nombreOriginal");
    var hexMutado := Get(body, "hexMutado");
    var nombreMutado := Get(body, "nombreMutado");
    if !IsTextUpTo(pregunta, 1000) then Some(MsgPregunta)
    else if !IsSixArray(lineas) then Some(MsgLineasArray)
    else if !AllLineValues(lineas) then Some(MsgLineasValues)
    else if !IsNumberIn(hexOriginal, 1.0, 64.0) then Some(MsgHexOriginal)
    else if !IsTextUpTo(nombreOriginal, 200) then Some(MsgNombreOriginal)
    else if !IsAbsent(hexMutado) && !IsNumberIn(hexMutado, 1.0, 64.0) then Some(MsgHexMutado)
    else if !IsAbsent(nombreMutado) && !IsTextUpTo(nombreMutado, 200) then Some(MsgNombreMutado)
    else None
  }

  /** The question is text of at most 1000 units. */
  predicate PreguntaOk(body: Body) {
    IsTextUpTo(Get(body, "pregunta"), 1000)
  }

  /** The lines are an array of six. */
  predicate LineasArrayOk(body: Body) {
    IsSixArray(Get(body, "lineas"))
  }

  /** The six lines are line values 6 to 9. */
  predicate LineasValuesOk(body: Body)
    requires LineasArrayOk(body)
  {
    AllLineValues(Get(body, "lineas"))
  }

  /** The original hexagram lies in 1..64. */
  predicate HexOriginalOk(body: Body) {
    IsNumberIn(Get(body, "hexOriginal"), 1.0, 64.0)
  }

  /** The original name is text of at most 200 units. */
  predicate NombreOriginalOk(body: Body) {
    IsTextUpTo(Get(body, "nombreOriginal"), 200)
  }

  /** The mutated hexagram is missing or lies in 1..64. */
  predicate HexMutadoOk(body: Body) {
    IsAbsent(Get(body, "hexMutado")) || IsNumberIn(Get(body, "hexMutado"), 1.0, 64.0)
  }

  /** The mutated name is missing or text of at most 200 units. */
  predicate NombreMutadoOk(body: Body) {
    IsAbsent(Get(body, "nombreMutado")) || IsTextUpTo(Get(body, "nombreMutado"), 200)
  }

  /** What a stored reading must look like: a question of at most 1000 units, six
      line values of 6 to 9, an original hexagram in 1..64 with a name of at most
      200 units, and a mutated hexagram and name that are each missing or valid. */
  ghost predicate ConsultaBodyValid(body: Body) {
    && PreguntaOk(body)
    && (exists xs :: Get(body, "lineas") == Some(Arr(xs))
          && |xs| == 6 && forall i :: 0 <= i < |xs| ==> IsLineValue(xs[i]))
    && HexOriginalOk(body)
    && NombreOriginalOk(body)
    && HexMutadoOk(body)
    && NombreMutadoOk(body)
  }

  /** The validator accepts exactly the valid bodies. */
  lemma ValidateConsultaBodyAccepts(body: Body)
    ensures ValidateConsultaBody(body).None? <==> ConsultaBodyValid(body)
  {
    var lineas := Get(body, "lineas");
    if lineas.Some? && lineas.value.Arr? {
      var xs := lineas.value.items;
      assert Get(body, "lineas") == Some(Arr(xs));
    }
  }

  /** The checks run in order: each message is reported exactly when every
      earlier check passed and its own failed, whatever the later fields hold. */
  lemma ValidateConsultaBodyOrder(body: Body)
    ensures ValidateConsultaBody(body) == Some(MsgPregunta) <==> !PreguntaOk(body)
    ensures ValidateConsultaBody(body) == Some(MsgLineasArray) <==> PreguntaOk(body) && !LineasArrayOk(body)
    ensures ValidateConsultaBody(body) == Some(MsgLineasValues) <==>
              PreguntaOk(body) && LineasArrayOk(body) && !LineasValuesOk(body)
    ensures ValidateConsultaBody(body) == Some(MsgHexOriginal) <==>
              PreguntaOk(body) && LineasArrayOk(body) && LineasValuesOk(body) && !HexOriginalOk(body)
    ensures ValidateConsultaBody(body) == Some(MsgNombreOriginal) <==>
              PreguntaOk(body) && LineasArrayOk(body) && LineasValuesOk(body) && HexOriginalOk(body)
              && !NombreOriginalOk(body)
    ensures ValidateConsultaBody(body) == Some(MsgHexMutado) <==>
              PreguntaOk(body) && LineasArrayOk(body) && LineasValuesOk(body) && HexOriginalOk(body)
              && NombreOriginalOk(body) && !HexMutadoOk(body)
    ensures ValidateConsultaBody(body) == Some(MsgNombreMutado) <==>
              PreguntaOk(body) && LineasArrayOk(body) && LineasValuesOk(body) && HexOriginalOk(body)
              && NombreOriginalOk(body) && HexMutadoOk(body) && !NombreMutadoOk(body)
  {
  }

  /** An accepted body's lines name a King Wen hexagram: the six values are whole
      numbers from 6 to 9. */
  lemma AcceptedLineasAreReading(body: Body)
    requires ValidateConsultaBody(body).None?
    ensures Get(body, "lineas").Some? && Get(body, "lineas").value.Arr?
    ensures var xs := Get(body, "lineas").value.items;
            |xs| == 6 && forall i :: 0 <= i < 6 ==> xs[i].Num? && xs[i].n in {6.0, 7.0, 8.0, 9.0}
  {
  }

  // ---------------------------------------------------------------------------
  // POST /api/oraculo
  // ---------------------------------------------------------------------------

  /** `validateOraculoBody`. */
  function ValidateOraculoBody(body: Body): Option<string> {
    var pregunta := Get(body, "pregunta");
    if pregunta.Some? && !IsTextUpTo(pregunta, 1000) then Some(MsgPregunta)
    else if !IsNumberIn(Get(body, "hexagrama"), 1.0, 64.0) then Some(MsgHexagrama)
    else if !IsTextUpTo(Get(body, "nombreHexagrama"), 200) then Some(MsgNombreHexagrama)
    else if !IsTextUpTo(Get(body, "juicio"), 2000) then Some(MsgJuicio)
    else if !IsTextUpTo(Get(body, "imagen"), 2000) then Some(MsgImagen)
    else None
  }

  /** The question is missing or text of at most 1000 units (`null` is refused). */
  predicate PreguntaOptional(body: Body) {
    Get(body, "pregunta").None? || IsTextUpTo(Get(body, "pregunta"), 1000)
  }

  /** The hexagram lies in 1..64. */
  predicate HexagramaOk(body: Body) {
    IsNumberIn(Get(body, "hexagrama"), 1.0, 64.0)
  }

  /** The hexagram's name is text of at most 200 units. */
  predicate NombreHexagramaOk(body: Body) {
    IsTextUpTo(Get(body, "nombreHexagrama"), 200)
  }

  /** The judgement is text of at most 2000 units. */
  predicate JuicioOk(body: Body) {
    IsTextUpTo(Get(body, "juicio"), 2000)
  }

  /** The image is text of at most 2000 units. */
  predicate ImagenOk(body: Body) {
    IsTextUpTo(Get(body, "imagen"), 2000)
  }

  /** A question is optional (but `null` is not accepted), the hexagram lies in 1..64,
      its name has at most 200 units, the judgement and image at most 2000 each. */
  predicate OraculoBodyValid(body: Body) {
    && PreguntaOptional(body)
    && HexagramaOk(body)
    && NombreHexagramaOk(body)
    && JuicioOk(body)
    && ImagenOk(body)
  }

  /** The checks run in order: each message is reported exactly when every
      earlier check passed and its own failed. */
  lemma ValidateOraculoBodyOrder(body: Body)
    ensures ValidateOraculoBody(body) == Some(MsgPregunta) <==> !PreguntaOptional(body)
    ensures ValidateOraculoBody(body) == Some(MsgHexagrama) <==> PreguntaOptional(body) && !HexagramaOk(body)
    ensures ValidateOraculoBody(body) == Some(MsgNombreHexagrama) <==>
              PreguntaOptional(body) && HexagramaOk(body) && !NombreHexagramaOk(body)
    ensures ValidateOraculoBody(body) == Some(MsgJuicio) <==>
              PreguntaOptional(body) && HexagramaOk(body) && NombreHexagramaOk(body) && !JuicioOk(body)
    ensures ValidateOraculoBody(body) == Some(MsgImagen) <==>
              PreguntaOptional(body) && HexagramaOk(body) && NombreHexagramaOk(body) && JuicioOk(body)
              && !ImagenOk(body)
  {
  }

  /** The validator accepts exactly the valid bodies; the optional question is
      checked before anything else, and a `null` question is refused. */
  lemma ValidateOraculoBodyAccepts(body: Body)
    ensures ValidateOraculoBody(body).None? <==> OraculoBodyValid(body)
    ensures Get(body, "pregunta") == Some(Null) ==> ValidateOraculoBody(body) == Some(MsgPregunta)
    ensures "pregunta" !in body ==> ValidateOraculoBody(body) == ValidateOraculoBody(body["pregunta" := Str("")])
  {
  }
}
