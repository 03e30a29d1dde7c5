/**
 * Riksdagen: the URL arithmetic of the parliament's open-data documents
 * (base-36 years, the https fix-up), the basefile split into year and
 * number, the HTML block parser, and the page rearrangement that moves a
 * misplaced "Bilaga" box back to the top of a scanned page.
 */
module Riksdagen {
  import opened Wrappers
  import opened PyStr

  // ------------------------------------------------------------ base 36

  const Digits36: string := "0123456789ABCDEFGHIJKLMNOPQRSTUVWXYZ"

  predicate IsDigit36(c: char) { '0' <= c <= '9' || 'A' <= c <= 'Z' }

  /** The `k`-th base-36 digit: "0" to "9", then "A" to "Z". */
  function Digit36(k: nat): (c: char)
    requires k < 36
    ensures IsDigit36(c)
  {
    if k < 10 then ('0' as int + k) as char else ('A' as int + (k - 10)) as char
  }

  /** Digit36 spells the digit string of remote_url. */
  lemma DigitsAt(k: nat)
    requires k < 36
    ensures Digits36[k] == Digit36(k)
  {
    assert Digits36 == seq(36, i requires 0 <= i < 36 => Digit36(i));
  }

  /** The position of `c` in Digits36. */
  function Digit36Value(c: char): (v: nat)
    requires IsDigit36(c)
    ensures v < 36 && Digit36(v) == c
  {
    if '0' <= c <= '9' then c as int - '0' as int else c as int - 'A' as int + 10
  }

  /** `n` in base 36, most significant digit first; 0 is written as the empty string. */
  function Base36(n: nat): (s: string)
    ensures forall i :: 0 <= i < |s| ==> IsDigit36(s[i])
  {
    if n == 0 then "" else Base36(n / 36) + [Digit36(n % 36)]
  }

  /** The number a string of base-36 digits denotes. */
  function Base36Value(s: string): nat
    requires forall i :: 0 <= i < |s| ==> IsDigit36(s[i])
  {
    if s == [] then 0 else 36 * Base36Value(s[..|s| - 1]) + Digit36Value(s[|s| - 1])
  }

  /** A canonical base-36 numeral: digits only, no leading zero. */
  predicate Canonical36(s: string)
  {
    (forall i :: 0 <= i < |s| ==> IsDigit36(s[i])) && (s != [] ==> s[0] != '0')
  }

  /** Base36 writes every number as a canonical numeral that denotes it. */
  lemma {:induction false} Base36RoundTrip(n: nat)
    ensures Canonical36(Base36(n)) && Base36Value(Base36(n)) == n
  {
    if n != 0 {
      var p, d := Base36(n / 36), Digit36(n % 36);
      assert Base36(n) == p + [d];
      Base36RoundTrip(n / 36);
      assert Digit36Value(d) == n % 36;
      Base36Snoc(p, d);
      if n / 36 == 0 {
        assert p + [d] == [d];
      }
    }
  }

  /** Appending a digit multiplies the value by 36 and adds the digit. */
  lemma Base36Snoc(p: string, d: char)
    requires forall i :: 0 <= i < |p| ==> IsDigit36(p[i])
    requires IsDigit36(d)
    ensures Base36Value(p + [d]) == 36 * Base36Value(p) + Digit36Value(d)
  {
    assert (p + [d])[..|p|] == p;
  }

  /** Every canonical numeral is what Base36 writes for its value. */
  lemma {:induction false} Base36Canonical(s: string)
    requires Canonical36(s)
    ensures Base36(Base36Value(s)) == s
  {
    if s != [] {
      var init := s[..|s| - 1];
      var v := Base36Value(s);
      assert v / 36 == Base36Value(init) && v % 36 == Digit36Value(s[|s| - 1]);
      if init == [] {
        assert v != 0;
      } else {
        assert init[0] == s[0];
        Base36Canonical(init);
        Base36NonZero(init);
      }
      assert s == init + [s[|s| - 1]];
    }
  }

  lemma {:induction false} Base36NonZero(s: string)
    requires Canonical36(s) && s != []
    ensures Base36Value(s) > 0
  {
    if |s| > 1 {
      assert s[..|s| - 1][0] == s[0];
      Base36NonZero(s[..|s| - 1]);
    } else {
      assert s[0] != '0';
    }
  }

  /** The `while remainder != 0: remainder, i = divmod(remainder, 36)` loop of remote_url. */
  method EncodeYear(offset: nat) returns (base36year: string)
    ensures base36year == Base36(offset)
  {
    var remainder: nat := offset;
    base36year := "";
    while remainder != 0
      invariant Base36(offset) == Base36(remainder) + base36year
      decreases remainder
    {
      assert |Digits36| == 36;
      var i := remainder % |Digits36|;
      DigitsAt(i);
      assert Base36(remainder) == Base36(remainder / 36) + [Digits36[i]];
      remainder := remainder / |Digits36|;
      base36year := [Digits36[i]] + base36year;
    }
  }

  // ------------------------------------------------------------ remote_url

  const Proposition: string := "prop"
  const Utskottsdokument: string := "utskottsdokument"
  const StatusPrefix: string := "http://data.riksdagen.se/dokumentstatus/"

  /** The document-type codes remote_url knows; any other type is a KeyError. */
  function DoctypeCode(documentType: string): (r: Option<string>)
    ensures r.Some? <==> documentType == Proposition || documentType == Utskottsdokument
    ensures r.Some? ==> |r.value| == 2
  {
    if documentType == Proposition then Some("03")
    else if documentType == Utskottsdokument then Some("01")
    else None
  }

  datatype UrlResult =
    | Url(url: string)
    | BadYear          // int() of the year part raises ValueError
    | NoNumber         // basefile.split(":")[1] raises IndexError
    | UnknownDoctype   // the doctype dictionary raises KeyError
    | NeverEnds        // a negative offset: divmod never reaches 0

  /** The year and its offset: "1975/76:24" counts from 1400, "1975:6" from 1401. */
  function YearOffset(basefile: string): Option<int>
  {
    if Contains(basefile, "/") then
      match PyInt(Split(basefile, "/")[0])
      case None => None
      case Some(year) => Some(year - 1400)
    else
      match PyInt(Split(basefile, ":")[0])
      case None => None
      case Some(year) => Some(year - 1401)
  }

  /** What remote_url returns or raises, in the order it evaluates things. */
  function RemoteUrlSpec(basefile: string, documentType: string): UrlResult
  {
    match YearOffset(basefile)
    case None => BadYear
    case Some(offset) =>
      var fields := Split(basefile, ":");
      if |fields| < 2 then NoNumber
      else if offset < 0 then NeverEnds
      else match DoctypeCode(documentType)
        case None => UnknownDoctype
        case Some(code) => Url(StatusPrefix + Base36(offset) + code + fields[1] + ".xml")
  }

  method RemoteUrl(basefile: string, documentType: string) returns (r: UrlResult)
    ensures r == RemoteUrlSpec(basefile, documentType)
  {
    var yearOffset := YearOffset(basefile);
    if yearOffset.None? {
      return BadYear;
    }
    var remainder := yearOffset.value;
    var fields := Split(basefile, ":");
    if |fields| < 2 {
      return NoNumber;
    }
    var pnr := fields[1];
    if remainder < 0 {
      return NeverEnds;
    }
    var base36year := EncodeYear(remainder);
    var code := DoctypeCode(documentType);
    if code.None? {
      return UnknownDoctype;
    }
    r := Url(StatusPrefix + base36year + code.value + pnr + ".xml");
  }

  /**
   * A URL remote_url builds can be read back: after the fixed prefix comes the
   * canonical base-36 year offset, then the two-digit doctype code, the number
   * and ".xml".
   */
  lemma RemoteUrlDecodes(basefile: string, documentType: string)
    requires RemoteUrlSpec(basefile, documentType).Url?
    ensures var url := RemoteUrlSpec(basefile, documentType).url;
      var offset := YearOffset(basefile).value;
      var k := |Base36(offset)|;
      offset >= 0 && StartsWith(url, StatusPrefix) && EndsWith(url, ".xml") &&
      Canonical36(url[|StatusPrefix|..|StatusPrefix| + k]) &&
      Base36Value(url[|StatusPrefix|..|StatusPrefix| + k]) == offset &&
      url[|StatusPrefix| + k..|StatusPrefix| + k + 2] == DoctypeCode(documentType).value &&
      url[|StatusPrefix| + k + 2..|url| - 4] == Split(basefile, ":")[1]
  {
    var url := RemoteUrlSpec(basefile, documentType).url;
    var offset := YearOffset(basefile).value;
    var code, pnr := DoctypeCode(documentType).value, Split(basefile, ":")[1];
    assert offset >= 0 && url == StatusPrefix + Base36(offset) + code + pnr + ".xml";
    UrlReadsBack(url, offset, code, pnr);
  }

  /** The reading back of RemoteUrlDecodes, for any offset, code and number. */
  lemma UrlReadsBack(url: string, offset: nat, code: string, pnr: string)
    requires |code| == 2 && url == StatusPrefix + Base36(offset) + code + pnr + ".xml"
    ensures var k := |Base36(offset)|;
      StartsWith(url, StatusPrefix) && EndsWith(url, ".xml") &&
      Canonical36(url[|StatusPrefix|..|StatusPrefix| + k]) &&
      Base36Value(url[|StatusPrefix|..|StatusPrefix| + k]) == offset &&
      url[|StatusPrefix| + k..|StatusPrefix| + k + 2] == code &&
      url[|StatusPrefix| + k + 2..|url| - 4] == pnr
  {
    Base36RoundTrip(offset);
    UrlSlices(Base36(offset), code, pnr);
  }

  lemma UrlSlices(b: string, code: string, pnr: string)
    requires |code| == 2
    ensures var url := StatusPrefix + b + code + pnr + ".xml";
      var p := |StatusPrefix|;
      StartsWith(url, StatusPrefix) && EndsWith(url, ".xml") &&
      url[p..p + |b|] == b && url[p + |b|..p + |b| + 2] == code && url[p + |b| + 2..|url| - 4] == pnr
  {
    var url := StatusPrefix + b + code + pnr + ".xml";
    var p := |StatusPrefix|;
    assert url == StatusPrefix + (b + (code + (pnr + ".xml")));
  }

  // ------------------------------------------------------- modify_url_if_needed

  const ProtocolRelative: string := "//data.riksdagen.se/"

  /** A protocol-relative data.riksdagen.se URL gets "https:" in front; others are kept. */
  function ModifyUrl(url: string): (r: string)
    ensures EndsWith(r, url)
    ensures r != url <==> StartsWith(url, ProtocolRelative)
    ensures r != url ==> r == "https:" + url
  {
    if StartsWith(url, ProtocolRelative) then "https:" + url else url
  }

  /** Fixing a URL up twice is fixing it once. */
  lemma ModifyUrlIdempotent(url: string)
    ensures ModifyUrl(ModifyUrl(url)) == ModifyUrl(url)
  {
    if StartsWith(url, ProtocolRelative) {
      assert ModifyUrl(url)[0] == 'h';
    }
  }

  // ---------------------------------------------------- metadata_from_basefile

  /** Year and number of a basefile ("2011/12:45"); a basefile without ":" cannot be unpacked. */
  function MetadataFromBasefile(basefile: string): (r: Option<(string, string)>)
    ensures r.None? <==> !Contains(basefile, ":")
    ensures r.Some? ==> r.value.0 + ":" + r.value.1 == basefile && !Contains(r.value.0, ":")
  {
    var parts := SplitOnce(basefile, ":");
    if |parts| == 2 then Some((parts[0], parts[1])) else None
  }

  /** Year and number put back together give the basefile they came from. */
  lemma MetadataRoundTrip(year: string, number: string)
    requires !Contains(year, ":")
    ensures MetadataFromBasefile(year + ":" + number) == Some((year, number))
  {
    var s := year + ":" + number;
    assert OccursAt(s, ":", |year|);
    forall j: nat | j < |year| ensures !OccursAt(s, ":", j) {
      if OccursAt(s, ":", j) {
        assert OccursAt(year, ":", j);
        ContainsAt(year, ":", j);
      }
    }
    assert IndexOf(s, ":") == Some(|year|);
    assert s[..|year|] == year && s[|year| + 1..] == number;
  }

  // ------------------------------------------------------------ htmlparser

  /** An HTML block: its tag name and its text nodes. */
  datatype Block = Block(name: string, texts: seq<string>)

  datatype Element = Paragraph(lines: seq<string>) | Preformatted(lines: seq<string>)

  /** The element one block contributes: none when its normalised text is empty. */
  function ElementFor(b: Block): (e: Option<Element>)
    ensures e.Some? <==> NormalizeSpace(Join(b.texts, "")) != ""
    ensures e.Some? ==> e.value.lines == [NormalizeSpace(Join(b.texts, ""))]
    ensures e.Some? ==> (e.value.Preformatted? <==> b.name == "pre")
  {
    var t := NormalizeSpace(Join(b.texts, ""));
    if t == "" then None
    else if b.name == "pre" then Some(Preformatted([t]))
    else Some(Paragraph([t]))
  }

  /** The body htmlparser builds: one element per non-blank block, in order. */
  function Parsed(blocks: seq<Block>): seq<Element>
  {
    if blocks == [] then []
    else
      var init := Parsed(blocks[..|blocks| - 1]);
      match ElementFor(blocks[|blocks| - 1])
      case None => init
      case Some(e) => init + [e]
  }

  method HtmlParser(blocks: seq<Block>) returns (body: seq<Element>)
    ensures body == Parsed(blocks)
  {
    body := [];
    for i := 0 to |blocks|
      invariant body == Parsed(blocks[..i])
    {
      var elem := ElementFor(blocks[i]);
      assert blocks[..i + 1][..i] == blocks[..i];
      if elem.Some? {
        body := body + [elem.value];
      }
    }
    assert blocks[..|blocks|] == blocks;
  }

  /** The body of consecutive runs of blocks is the concatenation of their bodies. */
  lemma {:induction false} ParsedAppend(a: seq<Block>, b: seq<Block>)
    ensures Parsed(a + b) == Parsed(a) + Parsed(b)
    decreases |b|
  {
    if b == [] {
      assert a + b == a;
    } else {
      var b' := b[..|b| - 1];
      assert (a + b)[..|a + b| - 1] == a + b';
      assert (a + b)[|a + b| - 1] == b[|b| - 1];
      ParsedAppend(a, b');
    }
  }

  /** No more elements than blocks, and each has exactly one non-empty line. */
  lemma {:induction false} ParsedShape(blocks: seq<Block>)
    ensures |Parsed(blocks)| <= |blocks|
    ensures forall i :: 0 <= i < |Parsed(blocks)| ==>
      |Parsed(blocks)[i].lines| == 1 && Parsed(blocks)[i].lines[0] != ""
  {
    if blocks != [] {
      ParsedShape(blocks[..|blocks| - 1]);
    }
  }

  // ------------------------------------------------------------ sanitize_body

  /** A text box: its left edge and its text. */
  datatype Box = Box(left: int, text: string)

  datatype Page = Page(width: int, boxes: seq<Box>)

  /** "Bilaga " followed by "l" or a digit starts at index j. */
  predicate BilagaAt(s: string, j: nat)
  {
    j + 8 <= |s| && s[j..j + 7] == "Bilaga " && (s[j + 7] == 'l' || IsDigit(s[j + 7]))
  }

  /** `re.search("Bilaga [l\d]", s)`. */
  predicate HasBilaga(s: string)
  {
    exists j: nat :: j < |s| && BilagaAt(s, j)
  }

  /** A box that belongs at the top: right of 0.6 of the page width and mentioning a Bilaga. */
  predicate Misplaced(b: Box, width: int)
  {
    5 * b.left > 3 * width && HasBilaga(b.text)
  }

  /** `page.insert(0, page.pop(k))`. */
  function MoveToFront(s: seq<Box>, k: nat): (r: seq<Box>)
    requires k < |s|
    ensures |r| == |s| && r[0] == s[k]
    ensures forall i :: 0 <= i < k ==> r[i + 1] == s[i]
    ensures forall i :: k < i < |s| ==> r[i] == s[i]
  {
    [s[k]] + s[..k] + s[k + 1..]
  }

  /** Which box moves: the last, else the second to last, on a page of three or more boxes. */
  function Pick(p: Page): (k: Option<nat>)
    ensures k.Some? ==> |p.boxes| > 2 && |p.boxes| - 2 <= k.value < |p.boxes| && Misplaced(p.boxes[k.value], p.width)
    ensures k.Some? && k.value == |p.boxes| - 2 ==> !Misplaced(p.boxes[|p.boxes| - 1], p.width)
    ensures k.None? && |p.boxes| > 2 ==>
      !Misplaced(p.boxes[|p.boxes| - 1], p.width) && !Misplaced(p.boxes[|p.boxes| - 2], p.width)
  {
    var n := |p.boxes|;
    if n <= 2 then None
    else if Misplaced(p.boxes[n - 1], p.width) then Some(n - 1)
    else if Misplaced(p.boxes[n - 2], p.width) then Some(n - 2)
    else None
  }

  function Rearranged(p: Page): Page
  {
    match Pick(p)
    case None => p
    case Some(k) => p.(boxes := MoveToFront(p.boxes, k))
  }

  /** Rearranging keeps the boxes (as a multiset) and the width, and moves at most one box. */
  lemma RearrangedPermutes(p: Page)
    ensures Rearranged(p).width == p.width
    ensures multiset(Rearranged(p).boxes) == multiset(p.boxes)
    ensures Rearranged(p) != p ==> Pick(p).Some? && Rearranged(p).boxes[0] == p.boxes[Pick(p).value]
    ensures |p.boxes| <= 2 ==> Rearranged(p) == p
  {
    if Pick(p).Some? {
      var k := Pick(p).value;
      var s := p.boxes;
      assert s == s[..k] + [s[k]] + s[k + 1..];
      calc {
        multiset(MoveToFront(s, k));
        multiset([s[k]]) + multiset(s[..k]) + multiset(s[k + 1..]);
        multiset(s[..k] + [s[k]] + s[k + 1..]);
      }
    }
  }

  /** The page loop body: `for idx in (-1, -2)`, the first misplaced box is moved, then break. */
  method RearrangePage(page: Page) returns (result: Page)
    ensures result == Rearranged(page)
  {
    result := page;
    var n := |page.boxes|;
    if n <= 2 {
      return;
    }
    var idx := 1;
    var moved := false;
    while idx <= 2 && !moved
      invariant 1 <= idx <= 3
      invariant !moved ==> result == page
      invariant !moved && idx > 1 ==> !Misplaced(page.boxes[n - 1], page.width)
      invariant !moved && idx > 2 ==> !Misplaced(page.boxes[n - 2], page.width)
      invariant moved ==> result == Rearranged(page)
    {
      var box := page.boxes[n - idx];
      if 5 * box.left > 3 * page.width {
        if HasBilaga(box.text) {
          result := page.(boxes := MoveToFront(page.boxes, n - idx));
          moved := true;
        }
      }
      idx := idx + 1;
    }
  }

  /** A PDF reader: its source file name and its pages, which sanitize_body edits in place. */
  class Reader {
    const filename: string
    var pages: seq<Page>

    constructor (filename: string, pages: seq<Page>)
      ensures this.filename == filename && this.pages == pages
    {
      this.filename := filename;
      this.pages := pages;
    }

    /** For an hOCR source every page is rearranged; other readers are left alone. */
    method SanitizeBody()
      modifies this
      ensures |pages| == |old(pages)|
      ensures forall k :: 0 <= k < |pages| ==>
        pages[k] == if Contains(filename, ".hocr.") then Rearranged(old(pages)[k]) else old(pages)[k]
    {
      if !Contains(filename, ".hocr.") {
        return;
      }
      ghost var before := pages;
      for i := 0 to |pages|
        invariant |pages| == |before|
        invariant forall k :: 0 <= k < i ==> pages[k] == Rearranged(before[k])
        invariant forall k :: i <= k < |pages| ==> pages[k] == before[k]
      {
        var page := RearrangePage(pages[i]);
        pages := pages[i := page];
      }
    }
  }
}
