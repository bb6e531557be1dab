/**
 * The parsed Merriam-Webster collegiate response the word-info handler works
 * on (index.mjs:39), with every optional field an `Option`.
 */
module Dictionary {
  import opened Wrappers
  import opened Strings

  /** One entry of `prs`: its `mw` transcription, syllables broken by `-`. */
  datatype Pronunciation = Pronunciation(mw: Option<string>)

  /** `hwi`: the headword, syllables broken by `*`, and its pronunciations. */
  datatype HeadwordInfo = HeadwordInfo(hw: Option<string>, prs: Option<seq<Pronunciation>>)

  /** `meta`: the word-forms the entry covers and its offensive flag (`offensive === true`). */
  datatype Meta = Meta(stems: Option<seq<string>>, offensive: bool)

  /** One entry of `ins`: an inflected form (`if`) and its own pronunciations. */
  datatype Inflection = Inflection(form: string, prs: Option<seq<Pronunciation>>)

  /** One entry of a run-on's `vrs`: a variant spelling. */
  datatype Variant = Variant(va: Option<string>)

  /** One entry of `uros`: a run-on form (`ure`), its variants and pronunciations. */
  datatype RunOn = RunOn(ure: string, vrs: Option<seq<Variant>>, prs: Option<seq<Pronunciation>>)

  datatype Entry = Entry(
    hwi: Option<HeadwordInfo>,
    meta: Option<Meta>,
    ins: Option<seq<Inflection>>,
    uros: Option<seq<RunOn>>)

  /** An element of the response array: a spelling suggestion or a record. */
  datatype Item = Suggestion(text: string) | Record(entry: Entry)

  /** The whole response: an array, or some other JSON value. */
  datatype MwResponse = NotArray | Items(items: seq<Item>)

  /** A string element has no fields, so every optional chain on it is undefined. */
  function EntryOf(item: Item): Entry {
    match item
    case Suggestion(_) => Entry(None, None, None, None)
    case Record(e) => e
  }

  /** The record's raw headword, with its `*` syllable markers, when it has one. */
  function RawHeadword(item: Item): Option<string> {
    var e := EntryOf(item);
    if e.hwi.Some? then e.hwi.value.hw else None
  }

  /** The pronunciations listed under the record's headword, when there are any. */
  function HeadwordPrs(item: Item): Option<seq<Pronunciation>> {
    var e := EntryOf(item);
    if e.hwi.Some? then e.hwi.value.prs else None
  }

  /** The transcription of the first pronunciation of a list, when both exist. */
  function FirstMw(prs: Option<seq<Pronunciation>>): Option<string> {
    if prs.Some? && |prs.value| > 0 then prs.value[0].mw else None
  }

  /** Marker-free form of a headword or inflection: lower-cased, every `*` removed. */
  function Normalize(s: string): string {
    Lower(RemoveChar(s, '*'))
  }

  /** The syllables a transcription shows: one more than its hyphens. */
  function MwSyllables(mw: string): (n: nat)
    ensures n >= 1
  {
    CountChar(mw, '-') + 1
  }

  /**
   * What `overrideWithPhonemeMismatch` is handed as `mwPronunciation`: nothing
   * (`undefined`), one `mw` string, or a whole `prs` array.
   */
  datatype PhonemeSource = NoSource | Text(mw: string) | List(prs: seq<Pronunciation>)

  /** A missing `mw` counts as one syllable, as `(undefined || []).length + 1`. */
  function PronunciationSyllables(p: Pronunciation): (n: nat)
    ensures n >= 1
  {
    if p.mw.Some? then MwSyllables(p.mw.value) else 1
  }

  /** The greatest syllable count among the pronunciations; 0 stands for the `-Infinity` of an empty list. */
  function MaxSyllables(prs: seq<Pronunciation>): (n: nat)
    ensures prs == [] <==> n == 0
    ensures forall i :: 0 <= i < |prs| ==> PronunciationSyllables(prs[i]) <= n
    ensures prs != [] ==> exists i :: 0 <= i < |prs| && PronunciationSyllables(prs[i]) == n
  {
    if prs == [] then 0
    else
      var rest := MaxSyllables(prs[1..]);
      var first := PronunciationSyllables(prs[0]);
      assert forall i :: 1 <= i < |prs| ==> prs[i] == prs[1..][i - 1];
      if first >= rest then first else rest
  }

  /** The syllable count the override compares with (index.mjs:382-384): no source counts one, an empty array zero. */
  function PhonemeCount(src: PhonemeSource): (n: nat)
    ensures src.List? && src.prs == [] <==> n == 0
  {
    match src
    case NoSource => 1
    case Text(mw) => MwSyllables(mw)
    case List(prs) => MaxSyllables(prs)
  }

  /** Wraps an optional first `mw` string as a phoneme source. */
  function TextSource(mw: Option<string>): PhonemeSource {
    if mw.Some? then Text(mw.value) else NoSource
  }

  /** Wraps an optional `prs` array as a phoneme source. */
  function ListSource(prs: Option<seq<Pronunciation>>): PhonemeSource {
    if prs.Some? then List(prs.value) else NoSource
  }
}
