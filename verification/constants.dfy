/** The three colour tables, each a record indexed by the `WoolColor` value:
    display colours, localised names, and the identifier strings used by the
    text export and import. Each is written as a sequence whose position `i`
    holds the entry for the enum member of value `i`. */
module Constants {
  import opened Types

  /** Hex display colour of each wool colour. */
  const WoolColors: seq<string> := [
    "#FFFFFF", "#D87F33", "#B24CD8", "#6699D8",
    "#E5E533", "#7FCC19", "#F27FA5", "#4C4C4C",
    "#999999", "#4C7F99", "#7F3FB2", "#334CB2",
    "#664C33", "#667F33", "#993333", "#191919"]

  /** Localised (Chinese) display name of each wool colour. */
  const WoolNames: seq<string> := [
    "白色羊毛", "橙色羊毛", "品红色羊毛", "淡蓝色羊毛",
    "黄色羊毛", "黄绿色羊毛", "粉红色羊毛", "灰色羊毛",
    "淡灰色羊毛", "青色羊毛", "紫色羊毛", "蓝色羊毛",
    "棕色羊毛", "绿色羊毛", "红色羊毛", "黑色羊毛"]

  /** Canonical identifier of each wool colour, the text form of one block. */
  const WoolIds: seq<string> := [
    "white_wool", "orange_wool", "magenta_wool", "light_blue_wool",
    "yellow_wool", "lime_wool", "pink_wool", "gray_wool",
    "light_gray_wool", "cyan_wool", "purple_wool", "blue_wool",
    "brown_wool", "green_wool", "red_wool", "black_wool"]

  /** The identifier of a colour. */
  function IdOf(c: WoolColor): string {
    WoolIds[c.Value()]
  }

  /** The three tables are total over the same sixteen keys, the values of the
      `WoolColor` enum, with white first and black last. */
  lemma TablesCoverEveryColor(c: WoolColor)
    ensures |WoolIds| == |WoolColors| == |WoolNames| == 16
    ensures c.Value() < |WoolIds|
    ensures IdOf(White) == "white_wool" && IdOf(Black) == "black_wool"
  {
  }

  /** A character that separates tokens on import: JavaScript whitespace
      (the `\s` class and `String.prototype.trim`) or a comma. */
  predicate IsSeparator(ch: char) {
    IsWhitespace(ch) || ch == ','
  }

  /** The characters of the ECMAScript WhiteSpace and LineTerminator
      productions, by code point: tab, line feed, vertical tab, form feed,
      carriage return, space, no-break space, ogham space mark, the spaces
      U+2000..U+200A, line and paragraph separator, narrow no-break space,
      medium mathematical space, ideographic space and the byte order mark. */
  predicate IsWhitespace(ch: char) {
    var c := ch as int;
    (0x09 <= c <= 0x0D) || c == 0x20 || c == 0xA0 || c == 0x1680
    || (0x2000 <= c <= 0x200A) || c == 0x2028 || c == 0x2029
    || c == 0x202F || c == 0x205F || c == 0x3000 || c == 0xFEFF
  }

  /** A string that the import tokeniser returns unchanged as one token. */
  predicate IsToken(s: string) {
    |s| > 0 && forall i :: 0 <= i < |s| ==> !IsSeparator(s[i])
  }

  /** No identifier is empty or contains a separator, so every exported
      identifier survives the import tokeniser as a single token. */
  lemma IdsAreTokens(i: nat)
    requires i < |WoolIds|
    ensures IsToken(WoolIds[i])
  {
    var id := WoolIds[i];
    forall k | 0 <= k < |id|
      ensures !IsSeparator(id[k])
    {
      assert 'a' <= id[k] <= 'z' || id[k] == '_';
    }
  }

  /** The sixteen identifiers are pairwise distinct. */
  lemma IdsAreDistinct(i: nat, j: nat)
    requires i < |WoolIds| && j < |WoolIds| && i != j
    ensures WoolIds[i] != WoolIds[j]
  {
  }
}
