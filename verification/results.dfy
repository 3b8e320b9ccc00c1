/** Turning the classifier's top-5 (class id, raw label, score) triples into
    the records the result page lists: underscores become spaces and the
    label is title-cased the way Python's str.title() does it. */
module Results {
  import opened Text

  /** Python's s.replace(target, replacement) for one-character strings. */
  function ReplaceChar(s: string, target: char, replacement: char): (r: string)
    ensures |r| == |s|
    ensures forall i :: 0 <= i < |s| && s[i] == target ==> r[i] == replacement
    ensures forall i :: 0 <= i < |s| && s[i] != target ==> r[i] == s[i]
  {
    if s == [] then [] else [if s[0] == target then replacement else s[0]] + ReplaceChar(s[1..], target, replacement)
  }

  /** Python's str.title() over ASCII, one character at a time: a letter is
      upper-cased when the character before it (in the input) is not a
      letter, and lower-cased otherwise; other characters are kept.
      previousIsCased says whether the character before s was a letter. */
  function TitleFrom(s: string, previousIsCased: bool): string
  {
    if s == [] then []
    else [if previousIsCased then ToLower(s[0]) else ToUpper(s[0])] + TitleFrom(s[1..], IsCased(s[0]))
  }

  /** Position i of s begins a word: it is first, or follows a non-letter. */
  predicate StartsWord(s: string, i: int)
    requires 0 <= i < |s|
  {
    i == 0 || !IsCased(s[i - 1])
  }

  /** r is s in title case: the same letters up to case and the same
      non-letters, every letter upper case exactly when it begins a word. */
  predicate IsTitleOf(s: string, r: string)
  {
    && |r| == |s|
    && (forall i :: 0 <= i < |s| ==> ToLower(r[i]) == ToLower(s[i]))
    && (forall i :: 0 <= i < |s| && IsCased(s[i]) ==> (IsUpper(r[i]) <==> StartsWord(s, i)))
  }

  lemma {:induction false} TitleFromSpec(s: string, previousIsCased: bool)
    ensures |TitleFrom(s, previousIsCased)| == |s|
    ensures forall i :: 0 <= i < |s| ==> ToLower(TitleFrom(s, previousIsCased)[i]) == ToLower(s[i])
    ensures forall i :: 0 <= i < |s| && IsCased(s[i]) ==>
      (IsUpper(TitleFrom(s, previousIsCased)[i]) <==> if i == 0 then !previousIsCased else !IsCased(s[i - 1]))
  {
    if s != [] {
      var r := TitleFrom(s, previousIsCased);
      var rest := TitleFrom(s[1..], IsCased(s[0]));
      TitleFromSpec(s[1..], IsCased(s[0]));
      assert r == [r[0]] + rest;
      forall i | 0 < i < |s|
        ensures ToLower(r[i]) == ToLower(s[i])
        ensures IsCased(s[i]) ==> (IsUpper(r[i]) <==> !IsCased(s[i - 1]))
      {
        assert r[i] == rest[i - 1] && s[i] == s[1..][i - 1];
        assert i > 1 ==> s[i - 1] == s[1..][i - 2];
      }
    }
  }

  /** str.title(): the CPython scan started with no previous character,
      so the first character counts as beginning a word. Its result meets
      the title-case definition; TitleOfUnique gives the converse. */
  function Title(s: string): (r: string)
    ensures IsTitleOf(s, r)
  {
    TitleFromSpec(s, false);
    TitleFrom(s, false)
  }

  /** ... and nothing else does: the definition fixes every character. */
  lemma TitleOfUnique(s: string, r: string)
    requires IsTitleOf(s, r)
    ensures r == Title(s)
  {
    var t := Title(s);
    forall i | 0 <= i < |s|
      ensures r[i] == t[i]
    {
      if !IsCased(s[i]) {
        UncasedFixed(r[i], s[i]);
        UncasedFixed(t[i], s[i]);
      } else {
        assert IsUpper(r[i]) <==> StartsWord(s, i);
        assert IsUpper(t[i]) <==> StartsWord(s, i);
        CaseDetermines(r[i], t[i]);
      }
    }
  }

  /** r is how the raw label reads on the result page: underscores become
      spaces, other non-letters stay, and every letter keeps its identity
      and is upper case exactly when it begins a word of the raw label. */
  predicate IsDisplayLabel(raw: string, r: string)
  {
    && |r| == |raw|
    && (forall i :: 0 <= i < |raw| && raw[i] == '_' ==> r[i] == ' ')
    && (forall i :: 0 <= i < |raw| && !IsCased(raw[i]) && raw[i] != '_' ==> r[i] == raw[i])
    && (forall i :: 0 <= i < |raw| && IsCased(raw[i]) ==>
          ToLower(r[i]) == ToLower(raw[i]) && (IsUpper(r[i]) <==> StartsWord(raw, i)))
  }

  /** The label shown to the user: raw.replace("_", " ").title(). */
  function FormatLabel(raw: string): (r: string)
    ensures IsDisplayLabel(raw, r)
    ensures '_' !in r
  {
    var spaced := ReplaceChar(raw, '_', ' ');
    var r := Title(spaced);
    assert forall i :: 0 <= i < |raw| && !IsCased(spaced[i]) ==> r[i] == spaced[i] by {
      forall i | 0 <= i < |raw| && !IsCased(spaced[i]) ensures r[i] == spaced[i] {
        UncasedFixed(r[i], spaced[i]);
      }
    }
    assert forall i :: 0 <= i < |raw| ==> StartsWord(spaced, i) == StartsWord(raw, i);
    r
  }

  /** The display rule leaves no choice: FormatLabel is the only string
      that reads as the display label of raw. */
  lemma DisplayLabelUnique(raw: string, r: string)
    requires IsDisplayLabel(raw, r)
    ensures r == FormatLabel(raw)
  {
    var spaced := ReplaceChar(raw, '_', ' ');
    forall i | 0 <= i < |raw|
      ensures ToLower(r[i]) == ToLower(spaced[i])
      ensures IsCased(spaced[i]) ==> (IsUpper(r[i]) <==> StartsWord(spaced, i))
    {
      assert StartsWord(spaced, i) == StartsWord(raw, i);
    }
    TitleOfUnique(spaced, r);
  }

  /** One entry of the rendered result list: the record {"id", "label",
      "score"}; the label key is called name here, label being reserved. */
  datatype Entry<Score> = Entry(id: string, name: string, score: Score)

  /** The results comprehension: one entry per decoded triple, in order. */
  function FormatResults<Score>(top5: seq<(string, string, Score)>): (results: seq<Entry<Score>>)
    ensures |results| == |top5|
    ensures forall i :: 0 <= i < |top5| ==>
      results[i].id == top5[i].0 && results[i].score == top5[i].2 && results[i].name == FormatLabel(top5[i].1)
  {
    if top5 == [] then []
    else
      var (cid, name, score) := top5[0];
      [Entry(cid, FormatLabel(name), score)] + FormatResults(top5[1..])
  }

  /** Formatting goes entry by entry: it commutes with concatenation. */
  lemma FormatResultsAppend<Score>(a: seq<(string, string, Score)>, b: seq<(string, string, Score)>)
    ensures FormatResults(a + b) == FormatResults(a) + FormatResults(b)
  {
  }

  /** A one-word ImageNet label. */
  lemma FormatLabelOneWord()
    ensures FormatLabel("tabby") == "Tabby"
  {
  }

  /** A two-word ImageNet label: the underscore shows as a space and the
      second word is capitalized. */
  lemma FormatLabelTwoWords()
    ensures FormatLabel("sea_lion") == "Sea Lion"
  {
    SeaLionSpaced();
    SeaLionTitle();
  }

  lemma SeaLionSpaced()
    ensures ReplaceChar("sea_lion", '_', ' ') == "sea lion"
  {
  }

  lemma SeaLionTitle()
    ensures Title("sea lion") == "Sea Lion"
  {
  }

  /** An apostrophe starts a new word too, as in str.title(). */
  lemma FormatLabelApostrophe()
    ensures FormatLabel("o'neil") == "O'Neil"
  {
  }
}
