/** Translation lookup of `src/i18n/index.jsx`: the key-fallback chain of `t`,
    the substitution of `{name}` placeholders, and the initial language. The
    dictionaries themselves are inputs. */
module I18n {
  import opened Wrappers
  import opened Text

  type Dict = map<string, string>

  /** `d?.[key]` read through `||`: a missing or empty entry counts as absent. */
  function Entry(d: Option<Dict>, key: string): Option<string> {
    if d.Some? && key in d.value && d.value[key] != "" then Some(d.value[key]) else None
  }

  /** Position of the first occurrence of `needle` at or after `from`. */
  function FindFrom(hay: string, needle: string, from: nat): (r: Option<nat>)
    ensures r.Some? ==> from <= r.value && OccursAt(hay, needle, r.value)
                        && forall j :: from <= j < r.value ==> !OccursAt(hay, needle, j)
    ensures r.None? ==> forall j :: from <= j ==> !OccursAt(hay, needle, j)
    decreases |hay| - from
  {
    if from > |hay| - |needle| then None
    else if OccursAt(hay, needle, from) then Some(from)
    else FindFrom(hay, needle, from + 1)
  }

  /** `text.replace(pattern, value)` with a string pattern: only the first
      occurrence is replaced, and `value` is inserted literally. */
  function ReplaceFirst(text: string, pattern: string, value: string): (r: string)
    ensures !Contains(text, pattern) ==> r == text
  {
    match FindFrom(text, pattern, 0)
    case None => text
    case Some(i) => text[..i] + value + text[i + |pattern|..]
  }

  /** The placeholder `{k}`. */
  function Placeholder(k: string): string {
    "{" + k + "}"
  }

  /** The substitutions, one after the other, in the order of the parameters. */
  function Substitute(text: string, params: seq<(string, string)>): string
    decreases |params|
  {
    if params == [] then text
    else Substitute(ReplaceFirst(text, Placeholder(params[0].0), params[0].1), params[1..])
  }

  /** `t(key, params)` for the dictionary of the current language (`None` when
      the language has none) and the Spanish one. */
  function T(current: Option<Dict>, es: Dict, key: string, params: Option<seq<(string, string)>>): string {
    var text := match Entry(current, key)
                case Some(s) => s
                case None => match Entry(Some(es), key) case Some(s) => s case None => key;
    match params
    case None => text
    case Some(ps) => Substitute(text, ps)
  }

  /** The initial language: the saved choice when there is a non-empty one,
      otherwise English for a browser language starting with "en", else Spanish. */
  function InitialLang(saved: Option<string>, navigatorLanguage: string): (r: string)
    ensures r != ""
    ensures saved.Some? && saved.value != "" ==> r == saved.value
    ensures (saved.None? || saved.value == "") ==>
              r == (if StartsWith(navigatorLanguage, "en") then "en" else "es")
  {
    if saved.Some? && saved.value != "" then saved.value
    else if StartsWith(navigatorLanguage, "en") then "en" else "es"
  }

  // ---------------------------------------------------------------------------
  // Properties
  // ---------------------------------------------------------------------------

  /** The effect writes the language back under `iching-lang`: a load after that
      starts in the same language, whatever the browser's language is then. */
  lemma ReloadKeepsLang(saved: Option<string>, first: string, later: string)
    ensures InitialLang(Some(InitialLang(saved, first)), later) == InitialLang(saved, first)
  {
  }

  /** The saved choice after a run of loads, the browser reporting `navs[k]` at
      load `k`: each load writes its language back. */
  function Loads(saved: Option<string>, navs: seq<string>): Option<string>
    decreases |navs|
  {
    if navs == [] then saved else Loads(Some(InitialLang(saved, navs[0])), navs[1..])
  }

  /** The first load decides the language for good. */
  lemma {:induction false} FirstLoadDecides(saved: Option<string>, navs: seq<string>)
    requires navs != []
    ensures Loads(saved, navs) == Some(InitialLang(saved, navs[0]))
    decreases |navs|
  {
    var lang := InitialLang(saved, navs[0]);
    if |navs| > 1 {
      FirstLoadDecides(Some(lang), navs[1..]);
      ReloadKeepsLang(saved, navs[0], navs[1]);
    }
  }

  /** The fallback chain: the current language's entry when it is non-empty,
      otherwise the Spanish one when non-empty, otherwise the key itself. */
  lemma FallbackChain(current: Option<Dict>, es: Dict, key: string)
    ensures current.Some? && key in current.value && current.value[key] != "" ==>
              T(current, es, key, None) == current.value[key]
    ensures !(current.Some? && key in current.value && current.value[key] != "")
            && key in es && es[key] != "" ==>
              T(current, es, key, None) == es[key]
    ensures !(current.Some? && key in current.value && current.value[key] != "")
            && !(key in es && es[key] != "") ==>
              T(current, es, key, None) == key
  {
  }

  /** An empty translation counts as missing: an empty current entry falls through
      to the Spanish entry, or to the key. */
  lemma EmptyTranslationFallsThrough(current: Dict, es: Dict, key: string)
    requires key in current && current[key] == ""
    ensures T(Some(current), es, key, None) == T(None, es, key, None)
  {
  }

  /** Replacing the first occurrence keeps everything before it and everything
      after it verbatim; a later occurrence survives. */
  lemma ReplaceFirstSpec(text: string, pattern: string, value: string)
    requires Contains(text, pattern)
    ensures exists i :: 0 <= i <= |text| - |pattern| && OccursAt(text, pattern, i)
                        && (forall j :: 0 <= j < i ==> !OccursAt(text, pattern, j))
                        && ReplaceFirst(text, pattern, value) == text[..i] + value + text[i + |pattern|..]
  {
    var i := FindFrom(text, pattern, 0).value;
    assert OccursAt(text, pattern, i);
  }

  /** With an empty parameter list the text is returned unchanged, as it is
      without parameters. */
  lemma NoParamsUnchanged(current: Option<Dict>, es: Dict, key: string)
    ensures T(current, es, key, Some([])) == T(current, es, key, None)
  {
  }

  /** Only the first of two placeholders with the same name is replaced. */
  lemma FirstOccurrenceOnly(a: string, b: string, k: string, v: string)
    requires '{' !in k && !Contains(a, Placeholder(k))
    ensures ReplaceFirst(a + Placeholder(k) + b, Placeholder(k), v) == a + v + b
  {
    var p := Placeholder(k);
    var text := a + p + b;
    assert OccursAt(text, p, |a|) by {
      assert text[|a|..|a| + |p|] == p;
    }
    var i := FindFrom(text, p, 0).value;
    if i < |a| {
      OverlapImpossible(a, b, k, i);
      assert text[i..i + |p|] == a[i..i + |p|];
      assert OccursAt(a, p, i);
      assert false;
    }
    assert text[..|a|] == a;
    assert text[|a| + |p|..] == b;
  }

  /** An example: with `{n} y {n}` as the Spanish text, `t(key, {n: 3})` gives
      `3 y {n}`. */
  lemma SubstituteExample(es: Dict, key: string)
    requires key in es && es[key] == "{n} y {n}"
    ensures T(None, es, key, Some([("n", "3")])) == "3 y {n}"
  {
    var text := es[key];
    SubstituteSingle(text, "n", "3");
    assert text == Placeholder("n") + " y {n}";
    LeadingPlaceholder("n", " y {n}", "3");
  }

  /** A text that opens with `{k}` has that occurrence replaced. */
  lemma LeadingPlaceholder(k: string, b: string, v: string)
    requires '{' !in k
    ensures ReplaceFirst(Placeholder(k) + b, Placeholder(k), v) == v + b
  {
    assert !Contains("", Placeholder(k));
    assert "" + Placeholder(k) + b == Placeholder(k) + b;
    FirstOccurrenceOnly("", b, k, v);
  }

  /** With one parameter, only its first placeholder is replaced. */
  lemma SubstituteSingle(text: string, k: string, v: string)
    ensures Substitute(text, [(k, v)]) == ReplaceFirst(text, Placeholder(k), v)
  {
    assert [(k, v)][1..] == [];
  }

  /** For a name without '{', an occurrence of `{k}` starting inside `a` lies
      wholly inside `a`. */
  lemma OverlapImpossible(a: string, b: string, k: string, i: nat)
    requires '{' !in k && i < |a| && OccursAt(a + Placeholder(k) + b, Placeholder(k), i)
    ensures i + |Placeholder(k)| <= |a|
  {
    var p := Placeholder(k);
    var text := a + p + b;
    if i + |p| > |a| {
      // Position |a| holds the '{' that opens the placeholder, which inside
      // `p` appears only at offset 0.
      BraceOnlyFirst(k, |a| - i);
      ConcatAt(a + p, b, |a|);
      ConcatAt(a, p, |a|);
      SliceAt(text, i, i + |p|, |a| - i);
      assert false;
    }
  }

  lemma BraceOnlyFirst(k: string, m: int)
    ensures '{' !in k && 0 < m < |Placeholder(k)| ==> Placeholder(k)[m] != '{'
  {
    if '{' !in k && 0 < m <= |k| {
      assert Placeholder(k)[m] == k[m - 1];
    }
  }

  lemma SliceAt(s: string, lo: int, hi: int, m: int)
    ensures 0 <= lo <= hi <= |s| && 0 <= m < hi - lo ==> s[lo..hi][m] == s[lo + m]
  {
  }
}
