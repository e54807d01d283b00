/**
  How the two scripts differ on the same input, and where they agree: the
  stricter entry pattern of wc-color-image-matcher.php only accepts lines that
  script-for-wpcode.php also accepts, with the same SKU and the same colour
  number; the model-name rules and the candidate globs differ.
*/
module Variants {
  import opened Php
  import Images
  import WpCode
  import Matcher

  /** A line the streaming script takes as an entry is an entry for the
      map-building script too: same SKU, and the colour number that script
      extracts from its descriptor is the one the streaming script captured. */
  lemma StrictEntryIsEntry(line: string)
    requires '\n' !in line
    requires Matcher.MatchEntry(line).Some?
    ensures WpCode.MatchEntry(line).Some?
    ensures WpCode.MatchEntry(line).value.sku == Matcher.MatchEntry(line).value.sku
    ensures WpCode.ExtractColorNumber(WpCode.MatchEntry(line).value.colorInfo)
              == Some(Matcher.MatchEntry(line).value.colorNumber)
  {
    var a := SpanAt(line, 0, IsAlnum);
    var b := SpanAt(line, a, IsSpace);
    var c := SpanAt(line, b, IsDigit);
    assert WpCode.EntryShape(line, a, b);
    WpCode.MatchEntryAt(line, a, b);
    WpCode.ColorNumberOfRest(line, b, c);
  }

  lemma HyphenatedSkuLoose()
    ensures WpCode.MatchEntry("AB-1 01 / Black").Some?
  {
    var line := "AB-1 01 / Black";
    assert line[4] == ' ' && line[5] == '0';
    assert WpCode.EntryShape(line, 4, 5);
    WpCode.MatchEntryAt(line, 4, 5);
  }

  lemma HyphenatedSkuStrict()
    ensures Matcher.MatchEntry("AB-1 01 / Black").None?
  {
    var line := "AB-1 01 / Black";
    assert line[2] == '-';
    SpanAtExact(line, 0, IsAlnum, 2);
    SpanAtExact(line, 2, IsSpace, 2);
  }

  /** A SKU with a '-' is accepted only by the map-building script. */
  lemma HyphenatedSku()
    ensures WpCode.MatchEntry("AB-1 01 / Black").Some?
    ensures Matcher.MatchEntry("AB-1 01 / Black").None?
  {
    HyphenatedSkuLoose();
    HyphenatedSkuStrict();
  }

  /** The product "Drops Soft Tweed" gives the model "Soft" in one script and
      "Soft Tweed" in the other. */
  lemma ModelNamesDiffer()
    ensures WpCode.ExtractModelName("Drops Soft Tweed") == "Soft"
    ensures Matcher.ExtractModelName("Drops Soft Tweed") == "Soft Tweed"
  {
    WpCode.ModelNameExample();
    Matcher.ModelNameExample();
  }

  /** For the colour number "01", "010.jpg" is a candidate of `01*.*` but not of
      `01{,.*,-*.*}`, and "01" is a candidate only of the brace pattern. */
  lemma GlobsDiffer()
    ensures WpCode.StarDotStar("01", Images.Entry("010.jpg", 1))
    ensures !Matcher.BraceMatch("01", "010.jpg")
    ensures !WpCode.StarDotStar("01", Images.Entry("01", 1))
    ensures Matcher.BraceMatch("01", "01")
  {
    Matcher.BraceMatchExamples();
    assert "010.jpg"[..2] == "01" && "010.jpg"[2..][1] == '.';
    assert "01"[2..] == [];
  }
}
