/** The local (browser storage) mode of `src/hooks/useHistory.js`: the stored
    list of readings, capped at twenty, and the list the page shows. Storage is a
    plain list; identifiers, timestamps and the outcome of each cloud insert are
    inputs. */
module History {
  import opened Wrappers
  import Session

  const MaxLocal := 20

  /** A saved reading. Local entries carry the reading's own field names
      (`hexOriginal`, `nombreOriginal`, `hexMutado`, `nombreMutado`,
      `tieneMutaciones`); rows from the cloud database carry its column names
      (`hexagrama_original`, `nombre_original`, `hexagrama_mutado`,
      `nombre_mutado`, `tiene_mutaciones`), here the fields with a `Col` suffix.
      `None` is a field that is missing or null. */
  datatype Item = Item(id: string, pregunta: Option<string>, lineas: seq<int>,
                       hexOriginalCol: Option<int>, hexOriginal: Option<int>,
                       nombreOriginalCol: Option<string>, nombreOriginal: Option<string>,
                       hexMutadoCol: Option<int>, hexMutado: Option<int>,
                       nombreMutadoCol: Option<string>, nombreMutado: Option<string>,
                       tieneMutacionesCol: Option<bool>, tieneMutaciones: Option<bool>,
                       favorito: bool, nota: Option<string>, createdAt: string)

  /** What storage holds and what the page shows. */
  datatype Hist = Hist(storage: seq<Item>, consultas: seq<Item>)

  // ---------------------------------------------------------------------------
  // Sequences
  // ---------------------------------------------------------------------------

  /** `xs.filter(p)`. */
  function Filter<T>(xs: seq<T>, p: T -> bool): (r: seq<T>)
    ensures |r| <= |xs|
    ensures forall k :: 0 <= k < |r| ==> p(r[k])
    decreases |xs|
  {
    if xs == [] then [] else (if p(xs[0]) then [xs[0]] else []) + Filter(xs[1..], p)
  }

  /** `a` is `b` with some elements left out, the rest in the same order. */
  predicate Sublist<T(==)>(a: seq<T>, b: seq<T>)
    decreases |b|
  {
    if a == [] then true
    else if b == [] then false
    else if a[0] == b[0] then Sublist(a[1..], b[1..])
    else Sublist(a, b[1..])
  }

  /** A filter keeps order, and keeps exactly the elements that pass. */
  lemma {:induction false} FilterSpec<T>(xs: seq<T>, p: T -> bool)
    ensures Sublist(Filter(xs, p), xs)
    ensures forall x :: x in Filter(xs, p) <==> x in xs && p(x)
    decreases |xs|
  {
    if xs != [] {
      FilterSpec(xs[1..], p);
      var rest := Filter(xs[1..], p);
      if p(xs[0]) {
        assert Filter(xs, p) == [xs[0]] + rest;
        assert ([xs[0]] + rest)[1..] == rest;
      } else {
        assert Filter(xs, p) == rest;
        SublistSkip(rest, xs);
      }
      assert xs == [xs[0]] + xs[1..];
    }
  }

  /** Dropping the first element of the longer list keeps a sublist. */
  lemma SublistSkip<T>(a: seq<T>, b: seq<T>)
    requires b != [] && Sublist(a, b[1..])
    ensures Sublist(a, b)
    decreases |b|, 0
  {
    if a != [] && a[0] == b[0] {
      SublistTail(a, b[1..]);
    }
  }

  /** Dropping the first element of a sublist keeps it a sublist. */
  lemma SublistTail<T>(a: seq<T>, b: seq<T>)
    requires a != [] && Sublist(a, b)
    ensures Sublist(a[1..], b)
    decreases |b|, 1
  {
    if a[0] != b[0] {
      SublistTail(a, b[1..]);
    }
    SublistSkip(a[1..], b);
  }

  /** The first element with this identifier. */
  function Find(xs: seq<Item>, id: string): (r: Option<nat>)
    ensures r.None? <==> forall k :: 0 <= k < |xs| ==> xs[k].id != id
    ensures r.Some? ==> r.value < |xs| && xs[r.value].id == id
                        && forall k :: 0 <= k < r.value ==> xs[k].id != id
    decreases |xs|
  {
    if xs == [] then None
    else if xs[0].id == id then Some(0)
    else match Find(xs[1..], id)
         case None => None
         case Some(k) => Some(k + 1)
  }

  // ---------------------------------------------------------------------------
  // Storage helpers
  // ---------------------------------------------------------------------------

  /** `saveLocal`: only the first twenty items are written. */
  function SaveLocal(items: seq<Item>): (r: seq<Item>)
    ensures |r| == if |items| < MaxLocal then |items| else MaxLocal
    ensures r == items[..|r|]
  {
    if |items| <= MaxLocal then items else items[..MaxLocal]
  }

  /** The entry `addLocal` builds from a reading: the reading's fields, an
      identifier and a creation time, not a favourite and without a note. */
  function Entry(c: Session.Consulta, id: string, createdAt: string): Item {
    Item(id, Some(c.pregunta), c.lineas, None, c.hexOriginal, None, Some(c.nombreOriginal),
         None, c.hexMutado, None, c.nombreMutado, None, Some(c.tieneMutaciones),
         false, None, createdAt)
  }

  /** `addLocal`: the new entry first, then the stored items, cut to twenty. */
  function AddLocal(storage: seq<Item>, c: Session.Consulta, id: string, createdAt: string): (r: seq<Item>)
    ensures |r| >= 1 && r[0] == Entry(c, id, createdAt)
    ensures !r[0].favorito && r[0].nota.None?
    ensures |r| <= MaxLocal && |r| <= |storage| + 1 && r[1..] == storage[..|r| - 1]
    ensures |storage| < MaxLocal ==> |r| == |storage| + 1
  {
    SaveLocal([Entry(c, id, createdAt)] + storage)
  }

  // ---------------------------------------------------------------------------
  // Operations
  // ---------------------------------------------------------------------------

  /** What the page shows starts with what storage holds (after it, every entry
      pushed out of storage since the last load), and storage is within its cap. */
  predicate Inv(h: Hist) {
    |h.storage| <= MaxLocal && |h.storage| <= |h.consultas| && h.storage == h.consultas[..|h.storage|]
  }

  /** After `fetchConsultas` in local mode. */
  function Load(storage: seq<Item>): Hist {
    Hist(storage, storage)
  }

  /** `guardarConsulta`. `cloud` is the row the database returned, or `None`
      when the insert failed or there is no session; both fall back to storage. */
  function GuardarConsulta(h: Hist, isCloud: bool, cloud: Option<Item>,
                           c: Session.Consulta, id: string, createdAt: string): (r: (Hist, Item))
    ensures isCloud && cloud.Some? ==> r == (Hist(h.storage, [cloud.value] + h.consultas), cloud.value)
    ensures !isCloud || cloud.None? ==>
              r.1 == Entry(c, id, createdAt)
              && r.0.storage == AddLocal(h.storage, c, id, createdAt)
              && r.0.consultas == [r.1] + h.consultas
  {
    if isCloud && cloud.Some? then (Hist(h.storage, [cloud.value] + h.consultas), cloud.value)
    else
      var entry := Entry(c, id, createdAt);
      (Hist(AddLocal(h.storage, c, id, createdAt), [entry] + h.consultas), entry)
  }

  /** The local branch of `toggleFavorito`: nothing happens unless the shown list
      has the identifier; the new value is the negation of the first shown
      match's, written to every stored item with that identifier. */
  function ToggleFavorito(h: Hist, id: string): (r: Hist)
    ensures Find(h.consultas, id).None? ==> r == h
  {
    match Find(h.consultas, id)
    case None => h
    case Some(k) =>
      var newVal := !h.consultas[k].favorito;
      var items := seq(|h.storage|, i requires 0 <= i < |h.storage| =>
                         if h.storage[i].id == id then h.storage[i].(favorito := newVal) else h.storage[i]);
      Hist(SaveLocal(items), items)
  }

  /** The local branch of `updateNota`. */
  function UpdateNota(h: Hist, id: string, nota: Option<string>): Hist {
    var items := seq(|h.storage|, i requires 0 <= i < |h.storage| =>
                       if h.storage[i].id == id then h.storage[i].(nota := nota) else h.storage[i]);
    Hist(SaveLocal(items), items)
  }

  /** The local branch of `eliminarConsulta`. */
  function EliminarConsulta(h: Hist, id: string): Hist {
    var items := Filter(h.storage, (c: Item) => c.id != id);
    Hist(SaveLocal(items), items)
  }

  /** The local branch of `limpiarHistorial`; in cloud mode nothing changes. */
  function LimpiarHistorial(h: Hist, isCloud: bool): (r: Hist)
    ensures !isCloud ==> r.storage == [] && r.consultas == []
    ensures isCloud ==> r == h
  {
    if isCloud then h else Hist([], [])
  }

  /** The stored items whose insert failed (`ok[i]` is false), in order. */
  function Failed(local: seq<Item>, ok: seq<bool>): seq<Item>
    requires |ok| == |local|
    decreases |local|
  {
    if local == [] then []
    else (if ok[0] then [] else [local[0]]) + Failed(local[1..], ok[1..])
  }

  /** `syncLocalToCloud`'s effect on storage; `ok[i]` says whether the insert of
      the i-th stored item succeeded. Nothing happens without a session. */
  function SyncLocalToCloud(storage: seq<Item>, isCloud: bool, ok: seq<bool>): seq<Item>
    requires |ok| == |storage|
  {
    if !isCloud || storage == [] then storage
    else
      var failed := Failed(storage, ok);
      if failed == [] then [] else SaveLocal(failed)
  }

  // ---------------------------------------------------------------------------
  // Properties
  // ---------------------------------------------------------------------------

  /** Every local operation keeps storage within twenty items and a prefix of
      what is shown. */
  lemma OperationsPreserveInv(h: Hist, isCloud: bool, cloud: Option<Item>, c: Session.Consulta,
                              id: string, createdAt: string, nota: Option<string>)
    requires Inv(h)
    ensures Inv(Load(h.storage))
    ensures !isCloud ==> Inv(GuardarConsulta(h, isCloud, cloud, c, id, createdAt).0)
    ensures Inv(ToggleFavorito(h, id))
    ensures Inv(UpdateNota(h, id, nota))
    ensures Inv(EliminarConsulta(h, id))
    ensures Inv(LimpiarHistorial(h, isCloud))
  {
    var g := GuardarConsulta(h, isCloud, cloud, c, id, createdAt).0;
    if !isCloud {
      var e := Entry(c, id, createdAt);
      assert g.storage == ([e] + h.storage)[..|g.storage|];
      assert g.consultas == [e] + h.consultas;
      assert g.storage == g.consultas[..|g.storage|];
    }
  }

  /** Toggling writes the negation of the shown item's flag to every stored item
      with that identifier and changes nothing else; when the item is stored, the
      shown match is the first stored one, so its flag flips. */
  lemma ToggleFavoritoSpec(h: Hist, id: string)
    requires Inv(h)
    requires Find(h.storage, id).Some?
    ensures var r := ToggleFavorito(h, id);
            var k := Find(h.storage, id).value;
            && r.storage == r.consultas && |r.storage| == |h.storage|
            && r.storage[k].favorito == !h.storage[k].favorito
            && (forall i :: 0 <= i < |h.storage| ==>
                  r.storage[i] == if h.storage[i].id == id
                                  then h.storage[i].(favorito := !h.storage[k].favorito)
                                  else h.storage[i])
  {
    var k := Find(h.storage, id).value;
    assert h.consultas[k] == h.storage[k];
    var j := Find(h.consultas, id).value;
    if j < k {
      assert false;
    }
    if k < j {
      assert false;
    }
  }

  /** Toggling an item that is shown but no longer stored (one pushed out by a
      save since the last load) flips no flag: the list is replaced by what storage
      holds, so the item disappears from the page. */
  lemma ToggleUnstored(h: Hist, id: string)
    requires Inv(h)
    requires Find(h.consultas, id).Some? && Find(h.storage, id).None?
    ensures ToggleFavorito(h, id) == Hist(h.storage, h.storage)
    ensures Find(ToggleFavorito(h, id).consultas, id).None?
  {
    var items := seq(|h.storage|, i requires 0 <= i < |h.storage| =>
                       if h.storage[i].id == id then h.storage[i].(favorito := true) else h.storage[i]);
    assert items == h.storage;
  }

  /** A local save with twenty items stored: the new entry and the first nineteen
      are stored, the new entry and all twenty are shown. */
  lemma FullSave(st: seq<Item>, c: Session.Consulta, id: string, createdAt: string)
    requires |st| == MaxLocal
    ensures var e := Entry(c, id, createdAt);
            GuardarConsulta(Load(st), false, None, c, id, createdAt).0
              == Hist([e] + st[..MaxLocal - 1], [e] + st)
  {
  }

  /** Such an item is reachable: after a local save with twenty items stored, the
      oldest is still shown but no longer stored, and toggling it removes it from
      the page. */
  lemma ToggleAfterFullSave(st: seq<Item>, c: Session.Consulta, id: string, createdAt: string)
    requires |st| == MaxLocal && id != st[MaxLocal - 1].id
    requires forall k :: 0 <= k < MaxLocal - 1 ==> st[k].id != st[MaxLocal - 1].id
    ensures var h := GuardarConsulta(Load(st), false, None, c, id, createdAt).0;
            && Inv(h) && |h.consultas| == MaxLocal + 1
            && Find(h.consultas, st[MaxLocal - 1].id) == Some(MaxLocal)
            && Find(h.storage, st[MaxLocal - 1].id).None?
            && ToggleFavorito(h, st[MaxLocal - 1].id) == Hist(h.storage, h.storage)
  {
    var e := Entry(c, id, createdAt);
    var oldest := st[MaxLocal - 1].id;
    FullSave(st, c, id, createdAt);
    var h := Hist([e] + st[..MaxLocal - 1], [e] + st);
    assert h.storage == h.consultas[..MaxLocal];
    assert forall k :: 0 <= k < MaxLocal ==> h.consultas[k].id != oldest;
    assert h.consultas[MaxLocal].id == oldest;
    ToggleUnstored(h, oldest);
  }

  /** A note is set on exactly the items with the identifier. */
  lemma UpdateNotaSpec(h: Hist, id: string, nota: Option<string>)
    requires Inv(h)
    ensures var r := UpdateNota(h, id, nota);
            && r.storage == r.consultas && |r.storage| == |h.storage|
            && (forall i :: 0 <= i < |h.storage| ==>
                  r.storage[i] == if h.storage[i].id == id then h.storage[i].(nota := nota) else h.storage[i])
  {
  }

  /** Deleting removes every item with the identifier and keeps the others in order. */
  lemma EliminarConsultaSpec(h: Hist, id: string)
    requires Inv(h)
    ensures var r := EliminarConsulta(h, id);
            && r.storage == r.consultas
            && Sublist(r.storage, h.storage)
            && (forall x :: x in r.storage <==> x in h.storage && x.id != id)
  {
    FilterSpec(h.storage, (c: Item) => c.id != id);
  }

  lemma {:induction false} FailedSpec(local: seq<Item>, ok: seq<bool>)
    requires |ok| == |local|
    ensures |Failed(local, ok)| <= |local|
    ensures Sublist(Failed(local, ok), local)
    ensures Failed(local, ok) == [] <==> forall i :: 0 <= i < |ok| ==> ok[i]
    decreases |local|
  {
    if local != [] {
      FailedSpec(local[1..], ok[1..]);
      var rest := Failed(local[1..], ok[1..]);
      if ok[0] {
        assert Failed(local, ok) == rest;
        SublistSkip(rest, local);
        assert forall i :: 1 <= i < |ok| ==> ok[i] == ok[1..][i - 1];
      } else {
        assert Failed(local, ok) == [local[0]] + rest;
        assert ([local[0]] + rest)[1..] == rest;
      }
    }
  }

  /** After a sync storage is empty when every insert succeeded, and otherwise
      holds exactly the failed items in their original order. */
  lemma SyncKeepsFailed(storage: seq<Item>, ok: seq<bool>)
    requires |ok| == |storage| && |storage| <= MaxLocal
    ensures SyncLocalToCloud(storage, true, ok) == Failed(storage, ok)
    ensures (forall i :: 0 <= i < |ok| ==> ok[i]) <==> SyncLocalToCloud(storage, true, ok) == []
    ensures Sublist(SyncLocalToCloud(storage, true, ok), storage)
  {
    FailedSpec(storage, ok);
  }
}
