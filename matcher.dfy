/**
  wc-color-image-matcher.php: the variant that handles each entry of the
  correspondence file as soon as it reads it, using the product name seen last.
  The catalog is given as data: the SKU lookup as a map from SKU to variation id,
  and what `update_variation_color` and `assign_image_to_variation` return for
  the entry on each line of the file.
*/
module Matcher {
  import opened Php
  import Images

  // ---------------------------------------------------------------------------
  // One correspondence line: `^([a-zA-Z0-9]+)\s+(\d+)\s+\/`

  /** A SKU and the colour number captured next to it. */
  datatype Correspondence = Correspondence(sku: string, colorNumber: string)

  /** A way for `line` to match the entry pattern: SKU `line[..a]`, whitespace
      `line[a..b]`, colour number `line[b..c]`, whitespace `line[c..d]`, '/' at `d`. */
  ghost predicate EntryShape(line: string, a: int, b: int, c: int, d: int) {
    && 0 < a < b < c < d < |line|
    && (forall k :: 0 <= k < a ==> IsAlnum(line[k]))
    && (forall k :: a <= k < b ==> IsSpace(line[k]))
    && (forall k :: b <= k < c ==> IsDigit(line[k]))
    && (forall k :: c <= k < d ==> IsSpace(line[k]))
    && line[d] == '/'
  }

  /** `preg_match('/^([a-zA-Z0-9]+)\s+(\d+)\s+\//', $line, $matches)`. Every
      repetition is greedy and is followed by a class it does not overlap, so
      the only candidate split is the one the maximal runs give. */
  function MatchEntry(line: string): (r: Option<Correspondence>)
    ensures r.Some? ==>
              && 0 < |r.value.sku| && |r.value.sku| + 1 < |line|
              && r.value.sku == line[..|r.value.sku|]
  {
    var a := SpanAt(line, 0, IsAlnum);
    var b := SpanAt(line, a, IsSpace);
    var c := SpanAt(line, b, IsDigit);
    var d := SpanAt(line, c, IsSpace);
    if 0 < a < b < c < d < |line| && line[d] == '/' then Some(Correspondence(line[..a], line[b..c]))
    else None
  }

  /** A match comes from an entry shape: the maximal runs. */
  lemma MatchEntryHasShape(line: string)
    requires MatchEntry(line).Some?
    ensures exists a, b, c, d :: EntryShape(line, a, b, c, d)
              && MatchEntry(line) == Some(Correspondence(line[..a], line[b..c]))
  {
    var a := SpanAt(line, 0, IsAlnum);
    var b := SpanAt(line, a, IsSpace);
    var c := SpanAt(line, b, IsDigit);
    var d := SpanAt(line, c, IsSpace);
    assert EntryShape(line, a, b, c, d);
  }

  /** An entry shape is the one the maximal runs give, so it decides the match. */
  lemma MatchEntryOfShape(line: string, a: int, b: int, c: int, d: int)
    requires EntryShape(line, a, b, c, d)
    ensures MatchEntry(line) == Some(Correspondence(line[..a], line[b..c]))
  {
    SpanAtExact(line, 0, IsAlnum, a);
    SpanAtExact(line, a, IsSpace, b);
    SpanAtExact(line, b, IsDigit, c);
    SpanAtExact(line, c, IsSpace, d);
  }

  /** The line is an entry exactly when it has the entry shape, and every way of
      having it gives the SKU and colour number the match returns. */
  lemma MatchEntrySpec(line: string)
    ensures MatchEntry(line).Some? <==> exists a, b, c, d :: EntryShape(line, a, b, c, d)
    ensures forall a, b, c, d :: EntryShape(line, a, b, c, d) ==>
              MatchEntry(line) == Some(Correspondence(line[..a], line[b..c]))
  {
    if MatchEntry(line).Some? {
      MatchEntryHasShape(line);
    }
    forall a, b, c, d | EntryShape(line, a, b, c, d)
      ensures MatchEntry(line) == Some(Correspondence(line[..a], line[b..c]))
    {
      MatchEntryOfShape(line, a, b, c, d);
    }
  }

  /** `substr($line, strlen($sku) + 1)`: the line without the SKU and the one
      character after it. */
  function ColorInfo(line: string, e: Correspondence): string
    requires |e.sku| + 1 < |line|
  {
    line[|e.sku| + 1..]
  }

  /** Only one separator character is dropped: the others stay at the front of
      the colour information, which holds the colour number and the '/' after it. */
  lemma ColorInfoKeepsSeparator(line: string, a: int, b: int, c: int, d: int)
    requires EntryShape(line, a, b, c, d)
    ensures MatchEntry(line) == Some(Correspondence(line[..a], line[b..c]))
    ensures var info := ColorInfo(line, Correspondence(line[..a], line[b..c]));
              && |info| == |line| - a - 1
              && (forall k :: 0 <= k < b - a - 1 ==> IsSpace(info[k]))
              && info[b - a - 1..c - a - 1] == line[b..c]
              && info[d - a - 1] == '/'
  {
    MatchEntryOfShape(line, a, b, c, d);
    assert |line[..a]| == a;
    AfterSkuAndSeparator(line, a, b, c, d);
  }

  /** What follows the SKU and one separator character in an entry shape. */
  lemma AfterSkuAndSeparator(line: string, a: int, b: int, c: int, d: int)
    requires EntryShape(line, a, b, c, d)
    ensures var info := line[a + 1..];
              && |info| == |line| - a - 1
              && (forall k :: 0 <= k < b - a - 1 ==> IsSpace(info[k]))
              && info[b - a - 1..c - a - 1] == line[b..c]
              && info[d - a - 1] == '/'
  {
    var info := line[a + 1..];
    forall k | 0 <= k < b - a - 1 ensures IsSpace(info[k]) {
      assert info[k] == line[a + 1 + k];
    }
  }

  // ---------------------------------------------------------------------------
  // The streaming loop

  /** How the loop classifies a line of the file. */
  datatype Line =
    | Blank                                                // `empty(trim($line))`
    | EntryLine(e: Correspondence, colorInfo: string)      // matches the entry pattern
    | ContextLine(text: string)                            // a product name

  /** A line is skipped exactly when its trimmed text is "" or "0"; an entry carries
      the match of the trimmed text and what follows its SKU and one separator;
      any other line is its non-skipped trimmed text, which is no entry. */
  function ClassifyLine(raw: string): (kind: Line)
    ensures kind.Blank? <==> IsEmpty(Trim(raw))
    ensures kind.EntryLine? ==>
              && MatchEntry(Trim(raw)) == Some(kind.e)
              && kind.colorInfo == Trim(raw)[|kind.e.sku| + 1..]
    ensures kind.ContextLine? ==>
              && kind.text == Trim(raw) && !IsEmpty(kind.text) && MatchEntry(kind.text).None?
  {
    var line := Trim(raw);
    if IsEmpty(line) then Blank
    else
      match MatchEntry(line)
      case Some(e) => EntryLine(e, ColorInfo(line, e))
      case None => ContextLine(line)
  }

  function Classify(lines: seq<string>): (kinds: seq<Line>)
    ensures |kinds| == |lines|
  {
    seq(|lines|, k requires 0 <= k < |lines| => ClassifyLine(lines[k]))
  }

  /** What the catalog answers: `find_variation_by_sku` as a map (a missing key
      or id 0 is "not found"), and the results of the colour update and of the
      image assignment for the entry on each line number. */
  datatype Catalog = Catalog(ids: map<string, nat>, colorUpdated: nat -> bool, imageAssigned: nat -> bool)

  /** `$variation_id = find_variation_by_sku($sku); if (!$variation_id) ...` */
  function FindVariation(catalog: Catalog, sku: string): (r: Option<nat>)
    ensures r.Some? <==> sku in catalog.ids && catalog.ids[sku] != 0
    ensures r.Some? ==> r.value == catalog.ids[sku] && r.value > 0
  {
    if sku in catalog.ids && catalog.ids[sku] != 0 then Some(catalog.ids[sku]) else None
  }

  /** The messages the script appends to `$log`. */
  datatype LogLine =
    | VariationNotFound(sku: string)
    | ColorUpdateFailed(sku: string)
    | ImageNotFound(model: string, colorNumber: string)
    | ImageAssignFailed(sku: string)
    | Success(sku: string, colorInfo: string, image: string)
    | Summary(processed: nat)

  /** `extract_model_name`: the text after the first space, or the whole name. */
  function ExtractModelName(productName: string): (m: string)
    ensures ' ' !in productName ==> m == productName
    ensures ' ' in productName ==>
              && |m| < |productName|
              && productName == productName[..|productName| - |m| - 1] + " " + m
              && ' ' !in productName[..|productName| - |m| - 1]
  {
    AfterFirstSpace(productName)
  }

  /** The name matches one of `N`, `N.*` and `N-*.*`. */
  predicate BraceMatch(n: string, name: string)
    ensures BraceMatch(n, name) ==> StartsWith(name, n)
  {
    || name == n
    || StartsWith(name, n + ".")
    || (StartsWith(name, n + "-") && '.' in name[|n| + 1..])
  }

  /** glob `N{,.*,-*.*}` with GLOB_BRACE: the matches of `N`, then of `N.*`, then
      of `N-*.*`, each in listing order. */
  function BraceGlob(n: string, entries: seq<Images.Entry>): seq<Images.Entry> {
    Filter(entries, (e: Images.Entry) => e.name == n)
    + Filter(entries, (e: Images.Entry) => StartsWith(e.name, n + "."))
    + Filter(entries, (e: Images.Entry) => StartsWith(e.name, n + "-") && '.' in e.name[|n| + 1..])
  }

  function Glob(n: string): seq<Images.Entry> -> seq<Images.Entry> {
    entries => BraceGlob(n, entries)
  }

  /** The candidates are exactly the listed files whose name matches one of the
      three alternatives. */
  lemma BraceGlobMembers(n: string, entries: seq<Images.Entry>, e: Images.Entry)
    ensures e in BraceGlob(n, entries) <==> e in entries && BraceMatch(n, e.name)
  {
  }

  /** For the colour number "01": "01", "01.jpg" and "01-2.jpg" are candidates,
      "010.jpg" and "01-2" are not. */
  lemma BraceMatchExamples()
    ensures BraceMatch("01", "01") && BraceMatch("01", "01.jpg") && BraceMatch("01", "01-2.jpg")
    ensures !BraceMatch("01", "010.jpg") && !BraceMatch("01", "01-2")
  {
    assert "01.jpg"[..3] == "01.";
    assert "01-2.jpg"[..3] == "01-" && "01-2.jpg"[3..][1] == '.';
    assert "010.jpg"[..3][2] == '0';
    assert "01-2"[3..] == "2";
  }

  /** "Drops Soft Tweed" gives the model "Soft Tweed". */
  lemma ModelNameExample()
    ensures ExtractModelName("Drops Soft Tweed") == "Soft Tweed"
  {
    var s := "Drops Soft Tweed";
    AfterSpaceAt(s, 5);
    assert s[6..] == "Soft Tweed";
  }

  /** What the entry on line `i` adds to the log (lines 40-77): a missing
      variation stops there; a failed colour update is logged and the image step
      still runs. */
  function EntryLog(catalog: Catalog, listing: Images.Listing, currentProduct: string, i: nat,
                    e: Correspondence, colorInfo: string): (lines: seq<LogLine>)
    ensures 1 <= |lines| <= 2
    ensures forall k :: 0 <= k < |lines| ==> !lines[k].Summary?
  {
    match FindVariation(catalog, e.sku)
    case None => [VariationNotFound(e.sku)]
    case Some(_) =>
      var model := ExtractModelName(currentProduct);
      (if catalog.colorUpdated(i) then [] else [ColorUpdateFailed(e.sku)])
      + match Images.Resolve(listing, model, Glob(e.colorNumber))
        case None => [ImageNotFound(model, e.colorNumber)]
        case Some(image) =>
          if catalog.imageAssigned(i) then [Success(e.sku, colorInfo, image.file.name)]
          else [ImageAssignFailed(e.sku)]
  }

  /** What the loop keeps: `$current_product` and `$log`. */
  datatype State = State(currentProduct: string, log: seq<LogLine>)

  /** One turn of the loop, for the line numbered `i`. */
  function Step(catalog: Catalog, listing: Images.Listing, st: State, i: nat, kind: Line): State {
    match kind
    case Blank => st
    case EntryLine(e, info) => st.(log := st.log + EntryLog(catalog, listing, st.currentProduct, i, e, info))
    case ContextLine(text) => st.(currentProduct := text)
  }

  /** The loop over classified lines, in file order. */
  function Fold(catalog: Catalog, listing: Images.Listing, kinds: seq<Line>): State {
    if |kinds| == 0 then State("", [])
    else Step(catalog, listing, Fold(catalog, listing, kinds[..|kinds| - 1]), |kinds| - 1, kinds[|kinds| - 1])
  }

  predicate IsSuccess(l: LogLine) { l.Success? }

  /** The number of success lines in `log`. */
  function Successes(log: seq<LogLine>): nat {
    Count(log, IsSuccess)
  }

  /** A missing variation gives one line and nothing else; otherwise one or two
      lines, the last being the image outcome, preceded by the colour failure
      exactly when the colour update failed. The image outcome does not depend on
      the colour update. */
  lemma EntryOutcome(catalog: Catalog, listing: Images.Listing, currentProduct: string, i: nat,
                     e: Correspondence, colorInfo: string)
    ensures FindVariation(catalog, e.sku).None? ==>
              EntryLog(catalog, listing, currentProduct, i, e, colorInfo) == [VariationNotFound(e.sku)]
    ensures FindVariation(catalog, e.sku).Some? ==>
              var log := EntryLog(catalog, listing, currentProduct, i, e, colorInfo);
              var ok := EntryLog(catalog.(colorUpdated := _ => true), listing, currentProduct, i, e, colorInfo);
              && |ok| == 1
              && (!log[|log| - 1].ColorUpdateFailed? && !log[|log| - 1].VariationNotFound?)
              && (catalog.colorUpdated(i) ==> log == ok)
              && (!catalog.colorUpdated(i) ==> log == [ColorUpdateFailed(e.sku)] + ok)
    ensures Successes(EntryLog(catalog, listing, currentProduct, i, e, colorInfo)) <= 1
  {
    var log := EntryLog(catalog, listing, currentProduct, i, e, colorInfo);
    if FindVariation(catalog, e.sku).Some? && !catalog.colorUpdated(i) {
      assert log[..1] == [ColorUpdateFailed(e.sku)];
      assert Successes(log[..1]) == 0;
    }
  }

  /** An entry logs a success, which the loop counts, exactly when its variation
      is found, an image is found and the assignment succeeds; the colour update
      plays no part. */
  lemma EntrySucceeds(catalog: Catalog, listing: Images.Listing, currentProduct: string, i: nat,
                      e: Correspondence, colorInfo: string)
    ensures Successes(EntryLog(catalog, listing, currentProduct, i, e, colorInfo)) == 1 <==>
              && FindVariation(catalog, e.sku).Some?
              && Images.Resolve(listing, ExtractModelName(currentProduct), Glob(e.colorNumber)).Some?
              && catalog.imageAssigned(i)
  {
    var log := EntryLog(catalog, listing, currentProduct, i, e, colorInfo);
    if FindVariation(catalog, e.sku).None? {
      assert log[..0] == [];
    } else {
      var model := ExtractModelName(currentProduct);
      var head: seq<LogLine> := if catalog.colorUpdated(i) then [] else [ColorUpdateFailed(e.sku)];
      var last := match Images.Resolve(listing, model, Glob(e.colorNumber))
        case None => ImageNotFound(model, e.colorNumber)
        case Some(image) =>
          if catalog.imageAssigned(i) then Success(e.sku, colorInfo, image.file.name)
          else ImageAssignFailed(e.sku);
      assert log == head + [last];
      assert Successes(head) == 0 by {
        if |head| == 1 {
          assert head[..0] == [];
        }
      }
      assert (head + [last])[..|head|] == head;
    }
  }

  /** `$current_product` stays "" while every line is blank or an entry. */
  lemma {:induction false} NoContext(catalog: Catalog, listing: Images.Listing, kinds: seq<Line>)
    requires forall i :: 0 <= i < |kinds| ==> !kinds[i].ContextLine?
    ensures Fold(catalog, listing, kinds).currentProduct == ""
  {
    if |kinds| > 0 {
      var front := kinds[..|kinds| - 1];
      forall i | 0 <= i < |front| ensures !front[i].ContextLine? {
        assert front[i] == kinds[i];
      }
      NoContext(catalog, listing, front);
    }
  }

  /** Every line that is neither blank nor an entry replaces `$current_product`,
      so it is the last such line. */
  lemma {:induction false} LastContext(catalog: Catalog, listing: Images.Listing, kinds: seq<Line>, i: nat)
    requires i < |kinds| && kinds[i].ContextLine?
    requires forall j :: i < j < |kinds| ==> !kinds[j].ContextLine?
    ensures Fold(catalog, listing, kinds).currentProduct == kinds[i].text
  {
    if i < |kinds| - 1 {
      var front := kinds[..|kinds| - 1];
      forall j | i < j < |front| ensures !front[j].ContextLine? {
        assert front[j] == kinds[j];
      }
      assert front[i] == kinds[i];
      LastContext(catalog, listing, front, i);
    }
  }

  /** Each entry uses the most recent context line before it (or "" when none):
      its log lines are the ones `EntryLog` gives for that product name. */
  lemma EntryUsesLatestContext(catalog: Catalog, listing: Images.Listing, kinds: seq<Line>, i: nat)
    requires i < |kinds| && kinds[i].EntryLine?
    ensures var before := Fold(catalog, listing, kinds[..i]);
              && Fold(catalog, listing, kinds[..i + 1]).log
                   == before.log + EntryLog(catalog, listing, before.currentProduct, i, kinds[i].e, kinds[i].colorInfo)
              && ((forall j :: 0 <= j < i ==> !kinds[j].ContextLine?) ==> before.currentProduct == "")
              && (forall j ::
                    (0 <= j < i && kinds[j].ContextLine? && forall k :: j < k < i ==> !kinds[k].ContextLine?) ==>
                    before.currentProduct == kinds[j].text)
  {
    var front := kinds[..i];
    assert kinds[..i + 1][..i] == front;
    if forall j :: 0 <= j < i ==> !kinds[j].ContextLine? {
      forall j | 0 <= j < i ensures !front[j].ContextLine? {
        assert front[j] == kinds[j];
      }
      NoContext(catalog, listing, front);
    }
    forall j | 0 <= j < i && kinds[j].ContextLine? && forall k :: j < k < i ==> !kinds[k].ContextLine?
      ensures Fold(catalog, listing, front).currentProduct == kinds[j].text
    {
      forall k | j < k < i ensures !front[k].ContextLine? {
        assert front[k] == kinds[k];
      }
      assert front[j] == kinds[j];
      LastContext(catalog, listing, front, j);
    }
  }

  /** Only entry lines write to the log, and none of them removes a line. */
  lemma {:induction false} LogOnlyGrows(catalog: Catalog, listing: Images.Listing, kinds: seq<Line>, i: nat)
    requires i <= |kinds|
    ensures Fold(catalog, listing, kinds[..i]).log <= Fold(catalog, listing, kinds).log
    ensures (forall j :: i <= j < |kinds| ==> !kinds[j].EntryLine?) ==>
              Fold(catalog, listing, kinds[..i]).log == Fold(catalog, listing, kinds).log
    decreases |kinds| - i
  {
    if i < |kinds| {
      assert kinds[..i + 1][..i] == kinds[..i];
      LogOnlyGrows(catalog, listing, kinds, i + 1);
    } else {
      assert kinds[..i] == kinds;
    }
  }

  /** Lines 40-77 for one entry line, with its success reported to the caller. */
  method ProcessEntry(catalog: Catalog, listing: Images.Listing, currentProduct: string, i: nat,
                      e: Correspondence, colorInfo: string)
    returns (lines: seq<LogLine>, succeeded: nat)
    ensures lines == EntryLog(catalog, listing, currentProduct, i, e, colorInfo)
    ensures succeeded == Successes(lines)
  {
    EntryOutcome(catalog, listing, currentProduct, i, e, colorInfo);
    succeeded := 0;
    var variationId := FindVariation(catalog, e.sku);
    if variationId.None? {
      lines := [VariationNotFound(e.sku)];
      return;
    }
    var before: seq<LogLine> := [];
    if !catalog.colorUpdated(i) {
      before := [ColorUpdateFailed(e.sku)];
    }
    var model := ExtractModelName(currentProduct);
    var image := Images.FindImage(listing, model, Glob(e.colorNumber));
    var last: LogLine;
    if image.Some? {
      if catalog.imageAssigned(i) {
        last := Success(e.sku, colorInfo, image.value.file.name);
        succeeded := 1;
      } else {
        last := ImageAssignFailed(e.sku);
      }
    } else {
      last := ImageNotFound(model, e.colorNumber);
    }
    lines := before + [last];
    assert Successes(before) == 0;
    assert lines[..|lines| - 1] == before;
  }

  /** Lines 23-84: one pass over the lines, handling each entry on the spot with
      the product name seen last; `$processed_count` is the number of success
      lines and the summary carries it. */
  method ProcessLines(lines: seq<string>, catalog: Catalog, listing: Images.Listing)
    returns (log: seq<LogLine>, processed: nat)
    ensures log == Fold(catalog, listing, Classify(lines)).log + [Summary(processed)]
    ensures processed == Successes(Fold(catalog, listing, Classify(lines)).log)
  {
    ghost var kinds := Classify(lines);
    var currentProduct := "";
    log := [];
    processed := 0;
    var i := 0;
    while i < |lines|
      invariant i <= |lines|
      invariant State(currentProduct, log) == Fold(catalog, listing, kinds[..i])
      invariant processed == Successes(log)
    {
      assert kinds[..i + 1][..i] == kinds[..i];
      var kind := ClassifyLine(lines[i]);
      assert kind == kinds[i];
      match kind {
        case Blank =>
        case EntryLine(e, colorInfo) =>
          var more, succeeded := ProcessEntry(catalog, listing, currentProduct, i, e, colorInfo);
          CountAppend(log, more, IsSuccess);
          log := log + more;
          processed := processed + succeeded;
        case ContextLine(text) =>
          currentProduct := text;
      }
      i := i + 1;
    }
    assert kinds[..|lines|] == kinds;
    log := log + [Summary(processed)];
  }

  /** The run's output: the log, or the one message for a missing file. */
  datatype Output = MissingFile | Report(log: seq<LogLine>)

  /** The report for a correspondence file's text. */
  function Run(text: string, catalog: Catalog, listing: Images.Listing): seq<LogLine> {
    var log := Fold(catalog, listing, Classify(Split(text))).log;
    log + [Summary(Successes(log))]
  }

  /** `update_product_variations_with_colors`: `file` is the correspondence file's
      content, or nothing when it does not exist. */
  method UpdateProductVariationsWithColors(file: Option<string>, catalog: Catalog, listing: Images.Listing)
    returns (out: Output)
    ensures file.None? ==> out == MissingFile
    ensures file.Some? ==> out == Report(Run(file.value, catalog, listing))
  {
    if file.None? {
      return MissingFile;
    }
    var log, _ := ProcessLines(Split(file.value), catalog, listing);
    return Report(log);
  }
}
