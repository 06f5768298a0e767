/**
 * The mode list of the generate tab: the labels it offers and the parser that
 * reads the mode number back out of the selected label.
 */
module ModeList {
  import opened Decimal
  import opened GoStrings

  /** The descriptions of the encryption modes, in order: description i is mode i + 1. */
  const ModeDescriptions: seq<string> := [
    "- MD5",
    "- MD5 (password:username)",
    "- MD5 (username:password)",
    "- MD5 Triple",
    "- SHA1",
    "- SHA1 (password:username) [default without ENABLE_SECURITY]",
    "- SHA1 (username:password)",
    "- SHA1 Triple",
    "- SHA512",
    "- SHA512 (password:username)",
    "- SHA512 (username:password)",
    "- SHA512 Triple",
    "- Argon2 [default with ENABLE_SECURITY]",
    "- SCrypt"
  ]

  /** A label of the mode list: the mode number in decimal, a space, then its description. */
  function Label(mode: int, description: string): string {
    FormatInt(mode) + " " + description
  }

  /** The labels of the mode list, in order: label i is mode i + 1. */
  const ModeOptions: seq<string> :=
    seq(|ModeDescriptions|, i requires 0 <= i < |ModeDescriptions| => Label(i + 1, ModeDescriptions[i]))

  /**
   * `parseModeFromSelection`: the integer before the first space, or 0 when that
   * text is not an integer.  `SplitN` never returns an empty list here, so the
   * first branch is dead code kept from the source.
   */
  function ParseModeFromSelection(sel: string): (mode: int)
    ensures MinInt <= mode <= MaxInt
  {
    var parts := SplitFirstSpace(sel);
    if |parts| == 0 then 0
    else
      match Atoi(parts[0])
      case None => 0
      case Some(mode) => mode
  }

  /** A label made of an integer, a space and any text parses to that integer. */
  lemma ParseLeadingInteger(i: int, head: string, rest: string)
    requires MinInt <= i <= MaxInt
    requires head == FormatInt(i) + " "
    ensures ParseModeFromSelection(head + rest) == i
  {
    var s := head + rest;
    var digits := FormatInt(i);
    FormatIntHasNoSpace(i);
    forall j | 0 <= j < |digits|
      ensures s[j] != ' '
    {
      assert s[j] == digits[j];
    }
    assert s[|digits|] == ' ';
    assert Index(s, ' ') == |digits|;
    assert SplitFirstSpace(s)[0] == s[..|digits|] == digits;
    AtoiFormatInt(i);
  }

  /** `%d` never writes a space. */
  lemma FormatIntHasNoSpace(i: int)
    ensures ' ' !in FormatInt(i)
  {
    var magnitude := if i < 0 then -i else i;
    ItoaDigits(magnitude);
    if i < 0 {
      assert FormatInt(i) == "-" + Itoa(magnitude);
    }
  }

  /** An empty selection, or one that starts with a space, reads as mode 0. */
  lemma ParseWithoutNumber(rest: string)
    ensures ParseModeFromSelection("") == 0
    ensures ParseModeFromSelection(" " + rest) == 0
  {
    var s := " " + rest;
    assert Index(s, ' ') == 0;
    assert SplitFirstSpace(s)[0] == [];
  }

  /** Every label of the mode list parses to its mode: label i to i + 1. */
  lemma ModeOptionsParse(i: int)
    requires 0 <= i < |ModeOptions|
    ensures ParseModeFromSelection(ModeOptions[i]) == i + 1
  {
    ParseLeadingInteger(i + 1, FormatInt(i + 1) + " ", ModeDescriptions[i]);
  }
}
