/**
  Localised label texts (`LabelText`). A label keeps a German and an English
  wording and exposes one of them as its current `text`, selected by a
  language code that is compared case-insensitively with "DE".
 */
module Labels {
  import opened Maybe

  /** A Java `String` field: `None` is `null`. */
  type JString = Option<string>

  datatype Label = Label(
    id: Option<int>,
    identifier: JString,
    lblGerman: JString,
    lblEnglish: JString,
    text: JString)

  /** `new LabelText()`: every reference field is `null` except `text`, which starts empty. */
  function NewLabel(): (l: Label)
    ensures l.text == Some("")
    ensures l.id.None? && l.identifier.None? && l.lblGerman.None? && l.lblEnglish.None?
  {
    Label(None, None, None, None, Some(""))
  }

  /** `Character.toUpperCase` restricted to ASCII letters. */
  function UpperChar(c: char): char {
    if 'a' <= c <= 'z' then (c as int - 'a' as int + 'A' as int) as char else c
  }

  /** `String.toUpperCase` over ASCII. */
  function ToUpper(s: string): string {
    seq(|s|, i requires 0 <= i < |s| => UpperChar(s[i]))
  }

  /** The spellings of the German code, written out without upper-casing. */
  predicate IsGermanCode(language: string) {
    |language| == 2 && language[0] in "dD" && language[1] in "eE"
  }

  /** Upper-casing yields "DE" exactly for the four spellings of the German code. */
  lemma UpperIsDEIffGermanCode(language: string)
    ensures ToUpper(language) == "DE" <==> IsGermanCode(language)
  {
    if ToUpper(language) == "DE" {
      var u := ToUpper(language);
      assert |language| == 2;
      assert u[0] == UpperChar(language[0]) == 'D';
      assert u[1] == UpperChar(language[1]) == 'E';
    }
    if IsGermanCode(language) {
      assert ToUpper(language) == [UpperChar(language[0]), UpperChar(language[1])];
    }
  }

  /** `setTextByLanguage`: German wording for the German code, English wording otherwise. */
  function SetTextByLanguage(l: Label, language: string): (r: Label)
    ensures r.id == l.id && r.identifier == l.identifier
    ensures r.lblGerman == l.lblGerman && r.lblEnglish == l.lblEnglish
    ensures IsGermanCode(language) ==> r.text == l.lblGerman
    ensures !IsGermanCode(language) ==> r.text == l.lblEnglish
  {
    UpperIsDEIffGermanCode(language);
    if ToUpper(language) == "DE" then l.(text := l.lblGerman) else l.(text := l.lblEnglish)
  }

  /** "de", "De", "dE" and "DE" all select the German wording. */
  lemma GermanSpellingsSelectGerman(l: Label)
    ensures SetTextByLanguage(l, "de").text == l.lblGerman
    ensures SetTextByLanguage(l, "De").text == l.lblGerman
    ensures SetTextByLanguage(l, "dE").text == l.lblGerman
    ensures SetTextByLanguage(l, "DE").text == l.lblGerman
  {
  }

  /** A language string whose length is not 2 always selects English. */
  lemma OtherLengthSelectsEnglish(l: Label, language: string)
    requires |language| != 2
    ensures SetTextByLanguage(l, language).text == l.lblEnglish
  {
  }

  /** The choice depends on the language only through its upper-cased form. */
  lemma SelectionIsCaseInsensitive(l: Label, language: string)
    ensures SetTextByLanguage(l, ToUpper(language)) == SetTextByLanguage(l, language)
  {
  }

  /** Only the most recent selection matters: the label's other fields and the earlier choice leave no trace. */
  lemma LastSelectionWins(l: Label, first: string, second: string)
    ensures SetTextByLanguage(SetTextByLanguage(l, first), second) == SetTextByLanguage(l, second)
  {
  }

  /** Selecting the same language twice is the same as selecting it once. */
  lemma SelectionIsIdempotent(l: Label, language: string)
    ensures SetTextByLanguage(SetTextByLanguage(l, language), language) == SetTextByLanguage(l, language)
  {
  }
}
