/**
 * The pseudolocalizer: every ASCII letter is replaced by an accented look-alike from a fixed
 * table, everything else passes through, and the result is padded with `···` and wrapped in
 * square brackets so that untranslated or hard-coded text stands out on screen.
 */
module Pseudolocalization {
  import opened Wrappers

  predicate IsAsciiLetter(c: char) {
    ('a' <= c <= 'z') || ('A' <= c <= 'Z')
  }

  /** The substitution table `charMap`: defined exactly on the 52 ASCII letters. */
  function Accented(c: char): (r: Option<char>)
    ensures r.Some? <==> IsAsciiLetter(c)
  {
    match c
    case 'a' => Some('á') case 'b' => Some('ƀ') case 'c' => Some('ç') case 'd' => Some('ð')
    case 'e' => Some('é') case 'f' => Some('ƒ') case 'g' => Some('ĝ') case 'h' => Some('ĥ')
    case 'i' => Some('í') case 'j' => Some('ĵ') case 'k' => Some('ķ') case 'l' => Some('ļ')
    case 'm' => Some('ɱ') case 'n' => Some('ñ') case 'o' => Some('ó') case 'p' => Some('þ')
    case 'q' => Some('ǫ') case 'r' => Some('ŕ') case 's' => Some('š') case 't' => Some('ţ')
    case 'u' => Some('ú') case 'v' => Some('ṽ') case 'w' => Some('ŵ') case 'x' => Some('ẋ')
    case 'y' => Some('ý') case 'z' => Some('ž')
    case 'A' => Some('Á') case 'B' => Some('Ɓ') case 'C' => Some('Ç') case 'D' => Some('Ð')
    case 'E' => Some('É') case 'F' => Some('Ƒ') case 'G' => Some('Ĝ') case 'H' => Some('Ĥ')
    case 'I' => Some('Í') case 'J' => Some('Ĵ') case 'K' => Some('Ķ') case 'L' => Some('Ļ')
    case 'M' => Some('Ṁ') case 'N' => Some('Ñ') case 'O' => Some('Ó') case 'P' => Some('Þ')
    case 'Q' => Some('Ǫ') case 'R' => Some('Ŕ') case 'S' => Some('Š') case 'T' => Some('Ţ')
    case 'U' => Some('Ú') case 'V' => Some('Ṽ') case 'W' => Some('Ŵ') case 'X' => Some('Ẋ')
    case 'Y' => Some('Ý') case 'Z' => Some('Ž')
    case _ => None
  }

  /** `charMap[char] || char`: the table entry, or the character itself outside the table. */
  function MapChar(c: char): char {
    Accented(c).GetOr(c)
  }

  /** The padding that simulates the length of a longer translation. */
  const Padding: string := "···"

  /** `text.split('').map(...).join('')`: the substitution applied to every character. */
  function MapChars(text: string): (r: string)
    ensures |r| == |text|
    ensures forall i :: 0 <= i < |text| ==> r[i] == MapChar(text[i])
  {
    seq(|text|, i requires 0 <= i < |text| => MapChar(text[i]))
  }

  /** `pseudolocalize(text)`. */
  function Pseudolocalize(text: string): (r: string)
    ensures text == "" ==> r == ""
    ensures text != "" ==> |r| == |text| + 5
    ensures text != "" ==> r[0] == '[' && r[|r| - 4..] == Padding + "]"
    ensures text != "" ==> forall i :: 0 <= i < |text| ==> r[i + 1] == MapChar(text[i])
  {
    if text == "" then text
    else "[" + MapChars(text) + Padding + "]"
  }

  /** Outside the table a character is kept; every letter is changed, and into a non-ASCII one. */
  lemma MapCharChangesExactlyLetters(c: char)
    ensures MapChar(c) == c <==> !IsAsciiLetter(c)
    ensures IsAsciiLetter(c) ==> MapChar(c) > '\U{7F}'
  {
  }

  /** Digits, punctuation, whitespace and non-ASCII text appear unchanged between the brackets. */
  lemma {:induction false} NonLettersPassThrough(text: string, i: nat)
    requires i < |text| && !IsAsciiLetter(text[i])
    ensures Pseudolocalize(text)[i + 1] == text[i]
  {
    MapCharChangesExactlyLetters(text[i]);
  }

  /** The table read backwards: recovers the ASCII letter behind an accented character. */
  function Unaccented(c: char): char {
    match c
    case 'á' => 'a' case 'ƀ' => 'b' case 'ç' => 'c' case 'ð' => 'd' case 'é' => 'e'
    case 'ƒ' => 'f' case 'ĝ' => 'g' case 'ĥ' => 'h' case 'í' => 'i' case 'ĵ' => 'j'
    case 'ķ' => 'k' case 'ļ' => 'l' case 'ɱ' => 'm' case 'ñ' => 'n' case 'ó' => 'o'
    case 'þ' => 'p' case 'ǫ' => 'q' case 'ŕ' => 'r' case 'š' => 's' case 'ţ' => 't'
    case 'ú' => 'u' case 'ṽ' => 'v' case 'ŵ' => 'w' case 'ẋ' => 'x' case 'ý' => 'y'
    case 'ž' => 'z'
    case 'Á' => 'A' case 'Ɓ' => 'B' case 'Ç' => 'C' case 'Ð' => 'D' case 'É' => 'E'
    case 'Ƒ' => 'F' case 'Ĝ' => 'G' case 'Ĥ' => 'H' case 'Í' => 'I' case 'Ĵ' => 'J'
    case 'Ķ' => 'K' case 'Ļ' => 'L' case 'Ṁ' => 'M' case 'Ñ' => 'N' case 'Ó' => 'O'
    case 'Þ' => 'P' case 'Ǫ' => 'Q' case 'Ŕ' => 'R' case 'Š' => 'S' case 'Ţ' => 'T'
    case 'Ú' => 'U' case 'Ṽ' => 'V' case 'Ŵ' => 'W' case 'Ẋ' => 'X' case 'Ý' => 'Y'
    case 'Ž' => 'Z'
    case _ => c
  }

  /** Strips the brackets and padding and undoes the substitution. */
  function Depseudolocalize(p: string): string {
    if |p| < 5 then p
    else seq(|p| - 5, i requires 0 <= i < |p| - 5 => Unaccented(p[i + 1]))
  }

  predicate IsAscii(text: string) {
    forall i :: 0 <= i < |text| ==> text[i] <= '\U{7F}'
  }

  /** On ASCII the reverse table undoes the substitution. */
  lemma UnaccentedUndoesMapChar(c: char)
    requires c <= '\U{7F}'
    ensures Unaccented(MapChar(c)) == c
  {
  }

  /** The table is one-to-one on ASCII, so ASCII text can be read back from its pseudolocalization. */
  lemma {:induction false} PseudolocalizeRoundTrip(text: string)
    requires IsAscii(text)
    ensures Depseudolocalize(Pseudolocalize(text)) == text
  {
    if text != "" {
      var p := Pseudolocalize(text);
      UnaccentedUndoesMapChars(text);
      assert forall i :: 0 <= i < |text| ==> Unaccented(p[i + 1]) == text[i];
    }
  }

  lemma UnaccentedUndoesMapChars(text: string)
    requires IsAscii(text)
    ensures forall i :: 0 <= i < |text| ==> Unaccented(MapChar(text[i])) == text[i]
  {
    forall i | 0 <= i < |text| ensures Unaccented(MapChar(text[i])) == text[i] {
      UnaccentedUndoesMapChar(text[i]);
    }
  }

  /** The substitution works character by character, so it distributes over concatenation. */
  lemma {:induction false} MapCharsAppend(a: string, b: string)
    ensures MapChars(a + b) == MapChars(a) + MapChars(b)
  {
    assert forall i :: 0 <= i < |a + b| ==> MapChars(a + b)[i] == (MapChars(a) + MapChars(b))[i];
  }

  /** Once the substituted text is known, the pseudolocalization is that text between the markers. */
  lemma Bracketed(text: string, inner: string)
    requires text != "" && MapChars(text) == inner
    ensures Pseudolocalize(text) == "[" + inner + Padding + "]"
  {
  }

  // The words of the test vectors, each settled by evaluation.
  lemma TurbopackWord() ensures MapChars("Turbopack") == "Ţúŕƀóþáçķ" {}
  lemma FileWord() ensures MapChars(" File") == " Ƒíļé" {}
  lemma ListWord() ensures MapChars(" List") == " Ļíšţ" {}
  lemma PluginWord() ensures MapChars(" Plugin") == " Þļúĝíñ" {}
  lemma DemoWord() ensures MapChars(" Demo") == " Ðéɱó" {}
  lemma NextDirWord() ensures MapChars(".next/") == ".ñéẋţ/" {}
  lemma ListJsonWord() ensures MapChars("list.json") == "ļíšţ.ĵšóñ" {}

  lemma TurbopackFileWords() ensures MapChars("Turbopack File") == "Ţúŕƀóþáçķ Ƒíļé" {
    TurbopackWord();
    FileWord();
    MapCharsAppend("Turbopack", " File");
    assert "Turbopack" + " File" == "Turbopack File";
  }

  lemma ListPluginWords() ensures MapChars(" List Plugin") == " Ļíšţ Þļúĝíñ" {
    ListWord();
    PluginWord();
    MapCharsAppend(" List", " Plugin");
    assert " List" + " Plugin" == " List Plugin";
  }

  lemma ListPluginDemoWords() ensures MapChars(" List Plugin Demo") == " Ļíšţ Þļúĝíñ Ðéɱó" {
    ListPluginWords();
    DemoWord();
    MapCharsAppend(" List Plugin", " Demo");
    assert " List Plugin" + " Demo" == " List Plugin Demo";
  }

  lemma HeadingWords()
    ensures MapChars("Turbopack File List Plugin Demo") == "Ţúŕƀóþáçķ Ƒíļé Ļíšţ Þļúĝíñ Ðéɱó"
  {
    HeadingSplit();
    TurbopackFileWords();
    ListPluginDemoWords();
    MapCharsAppend("Turbopack File", " List Plugin Demo");
  }

  lemma HeadingSplit() ensures "Turbopack File" + " List Plugin Demo" == "Turbopack File List Plugin Demo" {}

  /** The test vector of the demo page's heading. */
  lemma DemoHeadingVector()
    ensures Pseudolocalize("Turbopack File List Plugin Demo") == "[" + "Ţúŕƀóþáçķ Ƒíļé Ļíšţ Þļúĝíñ Ðéɱó" + Padding + "]"
  {
    HeadingWords();
    Bracketed("Turbopack File List Plugin Demo", "Ţúŕƀóþáçķ Ƒíļé Ļíšţ Þļúĝíñ Ðéɱó");
  }

  lemma FileNameWords()
    ensures MapChars(".next/list.json") == ".ñéẋţ/ļíšţ.ĵšóñ"
  {
    NextDirWord();
    ListJsonWord();
    MapCharsAppend(".next/", "list.json");
    assert ".next/" + "list.json" == ".next/list.json";
  }

  /** The test vector of the file name shown on the demo page: punctuation is preserved. */
  lemma FileNameVector()
    ensures Pseudolocalize(".next/list.json") == "[" + ".ñéẋţ/ļíšţ.ĵšóñ" + Padding + "]"
  {
    FileNameWords();
    Bracketed(".next/list.json", ".ñéẋţ/ļíšţ.ĵšóñ");
  }
}
