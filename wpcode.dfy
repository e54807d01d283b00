/**
  script-for-wpcode.php: the variant that first folds the whole correspondence
  file into a SKU-to-colour map, then walks every variation of every variable
  product in the catalog. The catalog is given as data: each product's name and
  its variations, and for each variation whether `wc_get_product` loaded it, its
  SKU, and what `update_variation_color` and `assign_image_to_variation` return.
*/
module WpCode {
  import opened Php
  import Images

  // ---------------------------------------------------------------------------
  // One correspondence line: `^([a-zA-Z0-9-]+)\s+(.+)$`

  /** `[a-zA-Z0-9-]` */
  predicate IsSkuChar(c: char) { IsAlnum(c) || c == '-' }

  /** A SKU and the colour descriptor found for it. */
  datatype Correspondence = Correspondence(sku: string, colorInfo: string)

  /** A way for `line` to match the entry pattern: SKU `line[..a]`, separator
      `line[a..b]`, descriptor `line[b..]` (`.` takes anything but a line feed). */
  ghost predicate EntryShape(line: string, a: int, b: int) {
    && 0 < a < b < |line|
    && (forall k :: 0 <= k < a ==> IsSkuChar(line[k]))
    && (forall k :: a <= k < b ==> IsSpace(line[k]))
    && (forall k :: b <= k < |line| ==> line[k] != '\n')
  }

  /** `preg_match('/^([a-zA-Z0-9-]+)\s+(.+)$/', $line, $matches)` on a line of the
      file. `\s+` is greedy but gives back one character when nothing else is left
      for `.+`. */
  function MatchEntry(line: string): (r: Option<Correspondence>)
    requires '\n' !in line
    ensures r.Some? ==>
              && 0 < |r.value.sku| && 0 < |r.value.colorInfo| && |r.value.sku| + |r.value.colorInfo| < |line|
              && r.value.sku == line[..|r.value.sku|]
              && r.value.colorInfo == line[|line| - |r.value.colorInfo|..]
  {
    var a := Span(line, IsSkuChar);
    var b := a + Span(line[a..], IsSpace);
    if a == 0 || b == a then None
    else if b < |line| then Some(Correspondence(line[..a], line[b..]))
    else if b - a >= 2 then Some(Correspondence(line[..a], line[b - 1..]))
    else None
  }

  /** The match is found exactly when the line has the entry shape; the SKU is the
      whole leading run of SKU characters, and the descriptor is what is left after
      the longest separator that still leaves a descriptor. */
  lemma MatchEntrySpec(line: string)
    requires '\n' !in line
    ensures MatchEntry(line).Some? <==> exists a, b :: EntryShape(line, a, b)
    ensures MatchEntry(line).Some? ==>
              var e := MatchEntry(line).value;
              && EntryShape(line, |e.sku|, |line| - |e.colorInfo|)
              && e.sku == line[..|e.sku|] && e.colorInfo == line[|line| - |e.colorInfo|..]
              && forall a, b :: EntryShape(line, a, b) ==> a == |e.sku| && b <= |line| - |e.colorInfo|
  {
    var a := Span(line, IsSkuChar);
    var w := Span(line[a..], IsSpace);
    forall a', b' | EntryShape(line, a', b')
      ensures a' == a && a + w >= b' && (a + w == |line| ==> b' < |line|)
    {
      SpanExact(line, IsSkuChar, a');
      var n := Span(line[a..], IsSpace);
      assert forall k :: a <= k < a + n ==> IsSpace(line[k]) by {
        forall k | a <= k < a + n ensures IsSpace(line[k]) {
          assert line[a..][k - a] == line[k];
        }
      }
      assert a + n == |line| || !IsSpace(line[a + n]) by {
        if a + n < |line| {
          assert line[a..][n] == line[a + n];
        }
      }
    }
    if MatchEntry(line).Some? {
      var e := MatchEntry(line).value;
      assert forall k :: a <= k < a + w ==> IsSpace(line[k]) by {
        forall k | a <= k < a + w ensures IsSpace(line[k]) {
          assert line[a..][k - a] == line[k];
        }
      }
      assert EntryShape(line, |e.sku|, |line| - |e.colorInfo|);
    }
  }

  /** A shape whose descriptor starts with a non-space character is the match. */
  lemma MatchEntryAt(line: string, a: int, b: int)
    requires '\n' !in line
    requires EntryShape(line, a, b) && !IsSpace(line[b])
    ensures MatchEntry(line) == Some(Correspondence(line[..a], line[b..]))
  {
    SpanExact(line, IsSkuChar, a);
    forall k | 0 <= k < b - a ensures IsSpace(line[a..][k]) {
      assert line[a..][k] == line[a + k];
    }
    assert line[a..][b - a] == line[b];
    SpanExact(line[a..], IsSpace, b - a);
  }

  // ---------------------------------------------------------------------------
  // The parse loop

  /** How the parse loop classifies a line of the file. */
  datatype Line =
    | Blank                          // `empty(trim($line))`: "" or "0"
    | EntryLine(e: Correspondence)   // matches the entry pattern
    | ContextLine(text: string)      // any other line: a product name

  predicate NoNewlines(lines: seq<string>) {
    forall k :: 0 <= k < |lines| ==> '\n' !in lines[k]
  }

  /** A line is skipped exactly when its trimmed text is "" or "0"; an entry carries
      the match of the trimmed text; any other line is its non-skipped trimmed
      text, which is no entry. */
  function ClassifyLine(raw: string): (kind: Line)
    requires '\n' !in raw
    ensures kind.Blank? <==> IsEmpty(Trim(raw))
    ensures kind.EntryLine? ==> MatchEntry(Trim(raw)) == Some(kind.e)
    ensures kind.ContextLine? ==>
              && kind.text == Trim(raw) && !IsEmpty(kind.text) && MatchEntry(kind.text).None?
  {
    var line := Trim(raw);
    if IsEmpty(line) then Blank
    else
      match MatchEntry(line)
      case Some(e) => EntryLine(e)
      case None => ContextLine(line)
  }

  function Classify(lines: seq<string>): (kinds: seq<Line>)
    requires NoNewlines(lines)
    ensures |kinds| == |lines|
  {
    seq(|lines|, k requires 0 <= k < |lines| => ClassifyLine(lines[k]))
  }

  /** What the parse loop keeps: `$sku_to_color` and `$current_product`. */
  datatype ParseState = ParseState(skuToColor: map<string, string>, currentProduct: string)

  /** One turn of the parse loop. */
  function Step(st: ParseState, kind: Line): ParseState {
    match kind
    case Blank => st
    case EntryLine(e) => st.(skuToColor := st.skuToColor[e.sku := e.colorInfo])
    case ContextLine(line) => st.(currentProduct := line)
  }

  /** The parse loop over classified lines, in file order. */
  function Fold(kinds: seq<Line>): ParseState {
    if |kinds| == 0 then ParseState(map[], "")
    else Step(Fold(kinds[..|kinds| - 1]), kinds[|kinds| - 1])
  }

  function ParseText(text: string): ParseState {
    Fold(Classify(Split(text)))
  }

  /** Lines 37-65: split the file into lines and fold them, in place, into the map. */
  method ParseCorrespondence(text: string) returns (skuToColor: map<string, string>, currentProduct: string)
    ensures ParseState(skuToColor, currentProduct) == ParseText(text)
  {
    var lines := Split(text);
    ghost var kinds := Classify(lines);
    currentProduct := "";
    skuToColor := map[];
    var i := 0;
    while i < |lines|
      invariant i <= |lines|
      invariant ParseState(skuToColor, currentProduct) == Fold(kinds[..i])
    {
      assert kinds[..i + 1][..i] == kinds[..i];
      var kind := ClassifyLine(lines[i]);
      assert kind == kinds[i];
      match kind {
        case Blank =>
        case EntryLine(e) =>
          skuToColor := skuToColor[e.sku := e.colorInfo];
        case ContextLine(line) =>
          currentProduct := line;
      }
      i := i + 1;
    }
    assert kinds[..|lines|] == kinds;
  }

  /** `empty()` also holds for "0", so a line holding only a zero is skipped,
      as is one holding only whitespace. */
  lemma ZeroLineIsBlank()
    ensures ClassifyLine("0") == Blank
    ensures ClassifyLine(" \t") == Blank
  {
    assert SpanAt("0", 0, IsTrimmed) == 0;
    assert SpanBackAt("0", 1, 0, IsTrimmed) == 1;
    assert "0"[0..1] == "0";
    assert SpanAt(" \t", 0, IsTrimmed) == 2;
  }

  /** `trim` keeps a form feed although `\s` counts it as whitespace, so a line
      holding only a form feed is a product-name line. */
  lemma FormFeedLineIsContext()
    ensures ClassifyLine("\U{C}") == ContextLine("\U{C}")
  {
    var s := "\U{C}";
    assert SpanAt(s, 0, IsTrimmed) == 0;
    assert SpanBackAt(s, 1, 0, IsTrimmed) == 1;
    assert s[0..1] == s;
    assert Span(s, IsSkuChar) == 0;
  }

  /** A SKU is a key of the map exactly when some line is an entry for it. */
  lemma {:induction false} ParseKeys(kinds: seq<Line>, sku: string)
    ensures sku in Fold(kinds).skuToColor <==>
              exists i :: 0 <= i < |kinds| && kinds[i].EntryLine? && kinds[i].e.sku == sku
  {
    if |kinds| > 0 {
      var front := kinds[..|kinds| - 1];
      ParseKeys(front, sku);
      if sku in Fold(front).skuToColor {
        var i :| 0 <= i < |front| && front[i].EntryLine? && front[i].e.sku == sku;
        assert kinds[i] == front[i];
      }
      if exists i :: 0 <= i < |kinds| && kinds[i].EntryLine? && kinds[i].e.sku == sku {
        var i :| 0 <= i < |kinds| && kinds[i].EntryLine? && kinds[i].e.sku == sku;
        if i < |front| {
          assert front[i] == kinds[i];
        }
      }
    }
  }

  /** Last write wins: the value for a SKU is the descriptor of its last entry. */
  lemma {:induction false} ParseLastWins(kinds: seq<Line>, i: nat)
    requires i < |kinds| && kinds[i].EntryLine?
    requires forall j :: i < j < |kinds| ==> !kinds[j].EntryLine? || kinds[j].e.sku != kinds[i].e.sku
    ensures kinds[i].e.sku in Fold(kinds).skuToColor
    ensures Fold(kinds).skuToColor[kinds[i].e.sku] == kinds[i].e.colorInfo
  {
    var front := kinds[..|kinds| - 1];
    if i < |kinds| - 1 {
      forall j | i < j < |front| ensures !front[j].EntryLine? || front[j].e.sku != front[i].e.sku {
        assert front[j] == kinds[j];
      }
      ParseLastWins(front, i);
    }
  }

  /** Blank lines (and lines equal to "0") change nothing: parsing only the other
      lines gives the same map and context. */
  lemma {:induction false} ParseIgnoresBlankLines(kinds: seq<Line>)
    ensures Fold(kinds) == Fold(Filter(kinds, (k: Line) => !k.Blank?))
  {
    if |kinds| > 0 {
      var front := kinds[..|kinds| - 1];
      var last := kinds[|kinds| - 1];
      ParseIgnoresBlankLines(front);
      var kept := Filter(kinds, (k: Line) => !k.Blank?);
      var keptFront := Filter(front, (k: Line) => !k.Blank?);
      if !last.Blank? {
        assert kept == keptFront + [last];
        assert kept[..|kept| - 1] == keptFront;
      } else {
        assert kept == keptFront;
      }
    }
  }

  /** `$current_product` stays "" when every line is blank or an entry. */
  lemma {:induction false} ParseNoContext(kinds: seq<Line>)
    requires forall i :: 0 <= i < |kinds| ==> !kinds[i].ContextLine?
    ensures Fold(kinds).currentProduct == ""
  {
    if |kinds| > 0 {
      var front := kinds[..|kinds| - 1];
      forall i | 0 <= i < |front| ensures !front[i].ContextLine? {
        assert front[i] == kinds[i];
      }
      ParseNoContext(front);
    }
  }

  /** A line that is neither blank nor an entry only replaces `$current_product`,
      so it ends as the last such line. */
  lemma {:induction false} ParseLastContext(kinds: seq<Line>, i: nat)
    requires i < |kinds| && kinds[i].ContextLine?
    requires forall j :: i < j < |kinds| ==> !kinds[j].ContextLine?
    ensures Fold(kinds).currentProduct == kinds[i].text
  {
    if i < |kinds| - 1 {
      var front := kinds[..|kinds| - 1];
      forall j | i < j < |front| ensures !front[j].ContextLine? {
        assert front[j] == kinds[j];
      }
      assert front[i] == kinds[i];
      ParseLastContext(front, i);
    }
  }

  // ---------------------------------------------------------------------------
  // extract_color_number

  /** `preg_match('/^(\d+)\s*\//', ...)`: leading digits, optional `\s`, then '/'. */
  function SlashRule(info: string): Option<string> {
    var d := Span(info, IsDigit);
    var w := Span(info[d..], IsSpace);
    if d > 0 && d + w < |info| && info[d + w] == '/' then Some(info[..d]) else None
  }

  /** `preg_match('/^(\d+)/', ...)` */
  function LeadingRule(info: string): Option<string> {
    var d := Span(info, IsDigit);
    if d > 0 then Some(info[..d]) else None
  }

  /** The two rules in the script's order. Either way the result is the whole
      leading run of digits, leading zeros kept, or nothing when the descriptor
      does not start with a digit. */
  function ExtractColorNumber(info: string): (r: Option<string>)
    ensures r.Some? <==> |info| > 0 && IsDigit(info[0])
    ensures r.Some? ==>
              && 0 < |r.value| <= |info| && r.value == info[..|r.value|]
              && (forall k :: 0 <= k < |r.value| ==> IsDigit(r.value[k]))
              && (|r.value| == |info| || !IsDigit(info[|r.value|]))
  {
    match SlashRule(info)
    case Some(n) => Some(n)
    case None => LeadingRule(info)
  }

  /** `if ($color_number)`: null and the string "0" are false in PHP. */
  predicate Truthy(n: Option<string>) { n.Some? && !IsEmpty(n.value) }

  /** The colour number is the maximal leading run of digits, however long. */
  lemma ColorNumberIsDigitRun(info: string, n: nat)
    requires 0 < n <= |info|
    requires forall k :: 0 <= k < n ==> IsDigit(info[k])
    requires n == |info| || !IsDigit(info[n])
    ensures ExtractColorNumber(info) == Some(info[..n])
  {
  }

  /** The same, for a descriptor that is the rest of a line from `b` on. */
  lemma ColorNumberOfRest(line: string, b: int, c: int)
    requires 0 <= b < c <= |line|
    requires forall k :: b <= k < c ==> IsDigit(line[k])
    requires c == |line| || !IsDigit(line[c])
    ensures ExtractColorNumber(line[b..]) == Some(line[b..c])
  {
    var info := line[b..];
    forall k | 0 <= k < c - b ensures IsDigit(info[k]) {
      assert info[k] == line[b + k];
    }
    if c < |line| {
      assert info[c - b] == line[c];
    }
    ColorNumberIsDigitRun(info, c - b);
    assert info[..c - b] == line[b..c];
  }

  /** "0 / White" yields the colour number "0", which `if ($color_number)` treats
      as false, so such a variation is reported as having no colour number. */
  lemma ColorNumberZero()
    ensures ExtractColorNumber("0 / White") == Some("0") && !Truthy(Some("0"))
    ensures ExtractColorNumber("White") == None
  {
    ColorNumberIsDigitRun("0 / White", 1);
    assert "0 / White"[..1] == "0";
  }

  // ---------------------------------------------------------------------------
  // extract_model_name

  /** `[^,\s]` */
  predicate IsModelChar(c: char) { c != ',' && !IsSpace(c) }

  /** `Drops\s+` matches at `i` and is followed, at `j`, by a `[^,\s]` character. */
  ghost predicate MarkerAt(s: string, i: int, j: int) {
    && 0 <= i && i + 5 < j < |s| && s[i..i + 5] == "Drops"
    && (forall k :: i + 5 <= k < j ==> IsSpace(s[k]))
    && IsModelChar(s[j])
  }

  /** Where the model token after a marker at `i` starts. */
  function TokenStart(s: string, i: nat): nat
    requires i + 5 <= |s|
  {
    i + 5 + Span(s[i + 5..], IsSpace)
  }

  predicate DropsAt(s: string, i: nat) {
    && i + 5 < |s| && s[i..i + 5] == "Drops" && IsSpace(s[i + 5])
    && TokenStart(s, i) < |s| && IsModelChar(s[TokenStart(s, i)])
  }

  lemma DropsAtMarker(s: string, i: nat)
    ensures DropsAt(s, i) ==> MarkerAt(s, i, TokenStart(s, i))
    ensures forall j :: MarkerAt(s, i, j) ==> DropsAt(s, i) && j == TokenStart(s, i)
  {
    if i + 5 <= |s| {
      var t := s[i + 5..];
      forall k | i + 5 <= k < TokenStart(s, i) ensures IsSpace(s[k]) {
        assert t[k - i - 5] == s[k];
      }
      forall j | MarkerAt(s, i, j) ensures DropsAt(s, i) && j == TokenStart(s, i) {
        SpanExact(t, IsSpace, j - i - 5);
      }
    }
  }

  /** The first position at or after `from` where the marker pattern matches. */
  function FindDrops(s: string, from: nat): (r: Option<nat>)
    ensures r.Some? ==>
              && from <= r.value && DropsAt(s, r.value)
              && forall i :: from <= i < r.value ==> !DropsAt(s, i)
    ensures r.None? ==> forall i :: from <= i ==> !DropsAt(s, i)
    decreases |s| - from
  {
    if from + 5 >= |s| then None
    else if DropsAt(s, from) then Some(from)
    else FindDrops(s, from + 1)
  }

  /** `extract_model_name`: the token after the leftmost `Drops\s+`, else the text
      after the first space. A token is never empty and holds no ',' and no
      whitespace. */
  function ExtractModelName(name: string): (m: string)
    ensures FindDrops(name, 0).Some? ==>
              0 < |m| && forall k :: 0 <= k < |m| ==> IsModelChar(m[k])
  {
    match FindDrops(name, 0)
    case Some(i) =>
      var j := TokenStart(name, i);
      name[j..j + Span(name[j..], IsModelChar)]
    case None => AfterFirstSpace(name)
  }

  /** Without a `Drops\s+[^,\s]` match the fallback rule decides. */
  lemma ModelNameWithoutMarker(name: string)
    requires forall i, j :: !MarkerAt(name, i, j)
    ensures ExtractModelName(name) == AfterFirstSpace(name)
  {
    if FindDrops(name, 0).Some? {
      DropsAtMarker(name, FindDrops(name, 0).value);
    }
  }

  /** With a match whose marker starts at `i` and whose token starts at `j`, and no
      match starting earlier, the result is the whole run of `[^,\s]` characters
      at `j`. */
  lemma ModelNameAfterMarker(name: string, i: int, j: int)
    requires MarkerAt(name, i, j)
    requires forall i', j' :: 0 <= i' < i ==> !MarkerAt(name, i', j')
    ensures var m := ExtractModelName(name);
              && 0 < |m| && j + |m| <= |name| && m == name[j..j + |m|]
              && (forall k :: 0 <= k < |m| ==> IsModelChar(m[k]))
              && (j + |m| == |name| || !IsModelChar(name[j + |m|]))
  {
    DropsAtMarker(name, i);
    var i0 := FindDrops(name, 0).value;
    DropsAtMarker(name, i0);
    assert i0 == i;
    var n := Span(name[j..], IsModelChar);
    assert name[j..][0] == name[j];
    if j + n < |name| {
      assert name[j..][n] == name[j + n];
    }
  }

  lemma FirstMarkerExample()
    ensures FindDrops("Drops Soft Tweed", 0) == Some(0)
    ensures TokenStart("Drops Soft Tweed", 0) == 6
  {
    var s := "Drops Soft Tweed";
    assert s[5..] == " Soft Tweed";
    SpanExact(s[5..], IsSpace, 1);
    assert DropsAt(s, 0);
  }

  /** The leftmost marker decides and only its first token is kept. */
  lemma ModelNameExample()
    ensures ExtractModelName("Drops Soft Tweed") == "Soft"
  {
    var s := "Drops Soft Tweed";
    FirstMarkerExample();
    assert s[6..] == "Soft Tweed";
    SpanExact(s[6..], IsModelChar, 4);
    assert s[6..10] == "Soft";
  }

  /** A name without the letter 'D' holds no marker. */
  lemma NoMarkerWithoutD(s: string)
    requires 'D' !in s
    ensures forall i, j :: !MarkerAt(s, i, j)
  {
    forall i, j ensures !MarkerAt(s, i, j) {
      if 0 <= i && i + 5 <= |s| {
        assert s[i..i + 5][0] == s[i];
      }
    }
  }

  lemma FallbackApplies()
    ensures ExtractModelName("BrandX Soft") == AfterFirstSpace("BrandX Soft")
  {
    var s := "BrandX Soft";
    assert 'D' !in s;
    NoMarkerWithoutD(s);
    ModelNameWithoutMarker(s);
  }

  lemma FallbackSplit()
    ensures AfterFirstSpace("BrandX Soft") == "Soft"
  {
    var s := "BrandX Soft";
    AfterSpaceAt(s, 6);
    assert s[7..] == "Soft";
  }

  /** Without "Drops" the brand is the first word and the model the rest. */
  lemma ModelNameFallbackExample()
    ensures ExtractModelName("BrandX Soft") == "Soft"
  {
    FallbackApplies();
    FallbackSplit();
  }

  // ---------------------------------------------------------------------------
  // find_image_by_model_and_color with glob `N*.*`

  /** glob `N*.*`: the name starts with the colour number and has a '.' somewhere
      after it, so "01" also finds "010.jpg". */
  predicate StarDotStar(n: string, e: Images.Entry)
    ensures StarDotStar(n, e) ==> |n| < |e.name| && e.name[..|n|] == n
  {
    StartsWith(e.name, n) && '.' in e.name[|n|..]
  }

  /** The entries `N*.*` lists, in listing order. */
  function Candidates(n: string, entries: seq<Images.Entry>): (c: seq<Images.Entry>)
    ensures forall e :: e in c <==> e in entries && StarDotStar(n, e)
  {
    Filter(entries, (e: Images.Entry) => StarDotStar(n, e))
  }

  function Glob(n: string): seq<Images.Entry> -> seq<Images.Entry> {
    entries => Candidates(n, entries)
  }

  lemma StarDotStarExamples()
    ensures StarDotStar("01", Images.Entry("010.jpg", 1))
    ensures StarDotStar("01", Images.Entry("01-2.jpg", 2))
    ensures !StarDotStar("01", Images.Entry("01", 3))
  {
    assert "010.jpg"[..2] == "01" && "010.jpg"[2..][1] == '.';
    assert "01-2.jpg"[..2] == "01" && "01-2.jpg"[2..][2] == '.';
    assert "01"[2..] == [];
  }

  /** `01*.*` lists "010.jpg" and "01-2.jpg" but not "01" (no dot after the number). */
  lemma CandidatesExample()
    ensures Candidates("01", [Images.Entry("010.jpg", 1), Images.Entry("01-2.jpg", 2), Images.Entry("01", 3)])
              == [Images.Entry("010.jpg", 1), Images.Entry("01-2.jpg", 2)]
  {
    var e0, e1, e2 := Images.Entry("010.jpg", 1), Images.Entry("01-2.jpg", 2), Images.Entry("01", 3);
    StarDotStarExamples();
    assert [e0][..0] == [];
    assert Candidates("01", [e0]) == [e0];
    assert [e0, e1][..1] == [e0];
    assert Candidates("01", [e0, e1]) == [e0, e1];
    assert [e0, e1, e2][..2] == [e0, e1];
  }

  // ---------------------------------------------------------------------------
  // The variation loop

  /** One entry of `get_available_variations()`, with the catalog's answers:
      whether `wc_get_product` loaded it, its SKU, and the results of the colour
      update and of the image assignment for it. */
  datatype Variation = Variation(id: int, loaded: bool, sku: string, colorUpdated: bool, imageAssigned: bool)

  datatype Product = Product(name: string, variations: seq<Variation>)

  /** The messages the script appends to `$log`. */
  datatype LogLine =
    | ColorUpdateFailed(sku: string, id: int)
    | ColorNumberMissing(colorInfo: string, sku: string)
    | ImageNotFound(model: string, colorNumber: string)
    | ImageAssignFailed(sku: string, id: int)
    | Success(sku: string, id: int, colorInfo: string, image: string)
    | Summary(processed: nat)

  /** What one variation adds to the log (lines 81-136). */
  function VariationLog(skuToColor: map<string, string>, listing: Images.Listing, productName: string, v: Variation): (lines: seq<LogLine>)
    ensures forall k :: 0 <= k < |lines| ==> !lines[k].Summary?
  {
    if !v.loaded || IsEmpty(v.sku) || v.sku !in skuToColor then []
    else
      var info := skuToColor[v.sku];
      if !v.colorUpdated then [ColorUpdateFailed(v.sku, v.id)]
      else
        var model := ExtractModelName(productName);
        var n := ExtractColorNumber(info);
        if !Truthy(n) then [ColorNumberMissing(info, v.sku)]
        else
          match Images.Resolve(listing, model, Glob(n.value))
          case None => [ImageNotFound(model, n.value)]
          case Some(image) =>
            if v.imageAssigned then [Success(v.sku, v.id, info, image.file.name)]
            else [ImageAssignFailed(v.sku, v.id)]
  }

  /** At most one line per variation; none exactly when it is skipped; a failed
      colour update gives its one line whatever the images and the assignment. */
  lemma VariationOutcome(skuToColor: map<string, string>, listing: Images.Listing, productName: string, v: Variation)
    ensures |VariationLog(skuToColor, listing, productName, v)| <= 1
    ensures VariationLog(skuToColor, listing, productName, v) == [] <==>
              !v.loaded || IsEmpty(v.sku) || v.sku !in skuToColor
    ensures v.loaded && !IsEmpty(v.sku) && v.sku in skuToColor && !v.colorUpdated ==>
              forall other: Images.Listing, b: bool ::
                VariationLog(skuToColor, other, productName, v.(imageAssigned := b)) == [ColorUpdateFailed(v.sku, v.id)]
  {
  }

  /** A variation logs a success, and so is counted, exactly when it is loaded, has
      a SKU the map knows, its colour update succeeds, its descriptor gives a
      truthy colour number, an image is found and the assignment succeeds. */
  lemma VariationSucceeds(skuToColor: map<string, string>, listing: Images.Listing, productName: string, v: Variation)
    ensures Successes(VariationLog(skuToColor, listing, productName, v)) == 1 <==>
              && v.loaded && !IsEmpty(v.sku) && v.sku in skuToColor && v.colorUpdated
              && Truthy(ExtractColorNumber(skuToColor[v.sku]))
              && Images.Resolve(listing, ExtractModelName(productName),
                                Glob(ExtractColorNumber(skuToColor[v.sku]).value)).Some?
              && v.imageAssigned
  {
    var log := VariationLog(skuToColor, listing, productName, v);
    if |log| == 1 {
      assert log[..0] == [];
    }
  }

  /** A descriptor without a truthy colour number (none, or "0") gives the
      ColorNumberMissing line, once the colour update has succeeded. */
  lemma ColorNumberMissingLine(skuToColor: map<string, string>, listing: Images.Listing, productName: string, v: Variation)
    requires v.loaded && !IsEmpty(v.sku) && v.sku in skuToColor && v.colorUpdated
    requires !Truthy(ExtractColorNumber(skuToColor[v.sku]))
    ensures VariationLog(skuToColor, listing, productName, v) == [ColorNumberMissing(skuToColor[v.sku], v.sku)]
  {
  }

  /** The SKU whose descriptor is "0 / White" gets the ColorNumberMissing line. */
  lemma ZeroColorNumberIsMissing(skuToColor: map<string, string>, listing: Images.Listing, productName: string, v: Variation)
    requires v.loaded && !IsEmpty(v.sku) && v.colorUpdated
    requires v.sku in skuToColor && skuToColor[v.sku] == "0 / White"
    ensures VariationLog(skuToColor, listing, productName, v) == [ColorNumberMissing("0 / White", v.sku)]
  {
    ColorNumberZero();
    ColorNumberMissingLine(skuToColor, listing, productName, v);
  }

  function ProductLog(skuToColor: map<string, string>, listing: Images.Listing, name: string, vs: seq<Variation>): seq<LogLine> {
    if |vs| == 0 then []
    else ProductLog(skuToColor, listing, name, vs[..|vs| - 1]) + VariationLog(skuToColor, listing, name, vs[|vs| - 1])
  }

  function CatalogLog(skuToColor: map<string, string>, listing: Images.Listing, products: seq<Product>): seq<LogLine> {
    if |products| == 0 then []
    else
      var p := products[|products| - 1];
      CatalogLog(skuToColor, listing, products[..|products| - 1]) + ProductLog(skuToColor, listing, p.name, p.variations)
  }

  predicate IsSuccess(l: LogLine) { l.Success? }

  /** The number of success lines in `log`. */
  function Successes(log: seq<LogLine>): nat {
    Count(log, IsSuccess)
  }

  /** Lines 81-136: one variation, with its success reported to the caller so that
      it can count it. */
  method ProcessVariation(skuToColor: map<string, string>, listing: Images.Listing, productName: string, v: Variation)
    returns (lines: seq<LogLine>, success: bool)
    ensures lines == VariationLog(skuToColor, listing, productName, v)
    ensures success <==> Successes(lines) == 1
    ensures Successes(lines) <= 1
  {
    lines := [];
    success := false;
    if !v.loaded || IsEmpty(v.sku) || v.sku !in skuToColor {
      return;
    }
    var colorInfo := skuToColor[v.sku];
    if !v.colorUpdated {
      lines := [ColorUpdateFailed(v.sku, v.id)];
      return;
    }
    var model := ExtractModelName(productName);
    var colorNumber := ExtractColorNumber(colorInfo);
    if Truthy(colorNumber) {
      var image := Images.FindImage(listing, model, Glob(colorNumber.value));
      if image.Some? {
        if v.imageAssigned {
          lines := [Success(v.sku, v.id, colorInfo, image.value.file.name)];
          success := true;
        } else {
          lines := [ImageAssignFailed(v.sku, v.id)];
        }
      } else {
        lines := [ImageNotFound(model, colorNumber.value)];
      }
    } else {
      lines := [ColorNumberMissing(colorInfo, v.sku)];
    }
  }

  /** Lines 80-137: the variations of one product, in order. */
  method ProcessProduct(skuToColor: map<string, string>, listing: Images.Listing, product: Product)
    returns (lines: seq<LogLine>, succeeded: nat)
    ensures lines == ProductLog(skuToColor, listing, product.name, product.variations)
    ensures succeeded == Successes(lines)
  {
    lines := [];
    succeeded := 0;
    var j := 0;
    while j < |product.variations|
      invariant j <= |product.variations|
      invariant lines == ProductLog(skuToColor, listing, product.name, product.variations[..j])
      invariant succeeded == Successes(lines)
    {
      assert product.variations[..j + 1][..j] == product.variations[..j];
      var more, success := ProcessVariation(skuToColor, listing, product.name, product.variations[j]);
      CountAppend(lines, more, IsSuccess);
      lines := lines + more;
      if success {
        succeeded := succeeded + 1;
      }
      j := j + 1;
    }
    assert product.variations[..|product.variations|] == product.variations;
  }

  /** Lines 67-141: every variation of every product in order, then the summary.
      `$processed_count` is the number of success lines and the summary carries it. */
  method UpdateVariations(skuToColor: map<string, string>, products: seq<Product>, listing: Images.Listing)
    returns (log: seq<LogLine>, processed: nat)
    ensures log == CatalogLog(skuToColor, listing, products) + [Summary(processed)]
    ensures processed == Successes(CatalogLog(skuToColor, listing, products))
  {
    log := [];
    processed := 0;
    var i := 0;
    while i < |products|
      invariant i <= |products|
      invariant log == CatalogLog(skuToColor, listing, products[..i])
      invariant processed == Successes(log)
    {
      assert products[..i + 1][..i] == products[..i];
      var lines, succeeded := ProcessProduct(skuToColor, listing, products[i]);
      CountAppend(log, lines, IsSuccess);
      log := log + lines;
      processed := processed + succeeded;
      i := i + 1;
    }
    assert products[..|products|] == products;
    log := log + [Summary(processed)];
  }

  /** The run's output: the log text, or the one message for a missing file. */
  datatype Output = MissingFile | Report(log: seq<LogLine>)

  /** The report for a correspondence file's text. */
  function Run(text: string, products: seq<Product>, listing: Images.Listing): seq<LogLine> {
    var log := CatalogLog(ParseText(text).skuToColor, listing, products);
    log + [Summary(Successes(log))]
  }

  /** `update_product_variations_with_colors`: `file` is the correspondence file's
      content, or nothing when it does not exist. */
  method UpdateProductVariationsWithColors(file: Option<string>, products: seq<Product>, listing: Images.Listing)
    returns (out: Output)
    ensures file.None? ==> out == MissingFile
    ensures file.Some? ==> out == Report(Run(file.value, products, listing))
  {
    if file.None? {
      return MissingFile;
    }
    var skuToColor, _ := ParseCorrespondence(file.value);
    var log, processed := UpdateVariations(skuToColor, products, listing);
    return Report(log);
  }
}
