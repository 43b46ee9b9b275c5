/** The notice-board crawler of the Ministry of SMEs and Startups site (`MSSCrawler`).

    The parsed page is given as already-extracted strings (the `.list_info` text, the pagination
    labels and, per table row, its cells and the `data-href` of each attachment span); the network
    is an oracle from page number or URL to a response, and the filesystem is the set of paths
    that exist. */
module Crawler {
  import opened Wrappers
  import opened Text

  const BaseUrl: string := "https://www.mss.go.kr"

  /** One `table tbody tr` row: the stripped-before texts of its cells, `None` where the cell (or, for
      the title, `td.subject a.pc-detail`) is missing, and one entry per `span.single-file` holding
      its `data-href` attribute, if any. */
  datatype RawRow = RawRow(
    number: Option<string>,
    title: Option<string>,
    hrefs: seq<Option<string>>,
    date: Option<string>,
    views: Option<string>)

  /** One listing page as the crawler reads it. */
  datatype Page = Page(listInfo: Option<string>, pageLabels: seq<string>, rows: seq<RawRow>)

  datatype Attachment = Attachment(name: string, url: string)

  /** A parsed notice; `title` is absent when the row has no title link. */
  datatype Notice = Notice(
    number: string,
    title: Option<string>,
    attachments: seq<Attachment>,
    date: string,
    views: string)

  // ---------------------------------------------------------------------------------------------
  // File names

  /** The characters of the class `[<>:"/\\|?*]`. */
  predicate IsIllegal(c: char) {
    c in "<>:\"/\\|?*"
  }

  /** `re.sub(r'[<>:"/\\|?*]', '_', s)`. */
  function ReplaceIllegal(s: string): (r: string)
    ensures |r| == |s|
    ensures forall i :: 0 <= i < |s| && IsIllegal(s[i]) ==> r[i] == '_'
    ensures forall i :: 0 <= i < |s| && !IsIllegal(s[i]) ==> r[i] == s[i]
  {
    seq(|s|, i requires 0 <= i < |s| => if IsIllegal(s[i]) then '_' else s[i])
  }

  /** The file-name cleaning of `download_file`: illegal characters replaced, then stripped. */
  function Sanitize(s: string): string {
    Strip(ReplaceIllegal(s))
  }

  /** A sanitised name holds none of the nine illegal characters, keeps a name that had none
      except for surrounding whitespace, and cleaning it again changes nothing. */
  lemma SanitizeSpec(s: string)
    ensures forall c :: c in Sanitize(s) ==> !IsIllegal(c)
    ensures (forall c :: c in s ==> !IsIllegal(c)) ==> Sanitize(s) == Strip(s)
    ensures Sanitize(Sanitize(s)) == Sanitize(s)
  {
    var t := ReplaceIllegal(s);
    SanitizeLegal(s);
    if forall c :: c in s ==> !IsIllegal(c) {
      assert t == s;
    }
    var u := Sanitize(s);
    assert ReplaceIllegal(u) == u;
    StripIdempotent(t);
  }

  /** No illegal character survives sanitising. */
  lemma SanitizeLegal(s: string)
    ensures forall c :: c in Sanitize(s) ==> !IsIllegal(c)
  {
    var t := ReplaceIllegal(s);
    assert forall c :: c in t ==> !IsIllegal(c);
  }

  /** The extension appended to a name without a dot: the first known one the URL contains. */
  function GuessExtension(url: string): (ext: string)
    ensures '/' !in ext
  {
    if Contains(url, ".hwp") then ".hwp"
    else if Contains(url, ".pdf") then ".pdf"
    else if Contains(url, ".xlsx") then ".xlsx"
    else if Contains(url, ".docx") then ".docx"
    else if Contains(url, ".hwpx") then ".hwpx"
    else ""
  }

  /** The name `download_file` first decides on, before any response header is seen. */
  function GuessedName(url: string, fileName: string): string {
    var safe := Sanitize(fileName);
    if '.' in safe then safe else safe + GuessExtension(url)
  }

  /** A URL holding ".hwpx" also holds ".hwp", which is tested first: the ".hwpx" branch is dead. */
  lemma HwpxNeverGuessed(url: string)
    ensures GuessExtension(url) != ".hwpx"
    ensures Contains(url, ".hwpx") ==> GuessExtension(url) == ".hwp"
  {
    if Contains(url, ".hwpx") {
      var k := FindFrom(url, ".hwpx", 0).value;
      assert OccursAt(url, ".hwp", k) by {
        assert url[k..k + 4] == url[k..k + 5][..4];
      }
      FindFromFirst(url, ".hwp", 0);
    }
  }

  /** The guessed extension is the first of ".hwp", ".pdf", ".xlsx", ".docx" that the URL
      contains, and nothing exactly when it contains none of them. */
  lemma GuessExtensionSpec(url: string)
    ensures GuessExtension(url) in [".hwp", ".pdf", ".xlsx", ".docx", ""]
    ensures GuessExtension(url) != "" ==> Contains(url, GuessExtension(url))
    ensures GuessExtension(url) == "" <==>
      !Contains(url, ".hwp") && !Contains(url, ".pdf") && !Contains(url, ".xlsx") && !Contains(url, ".docx")
    ensures GuessExtension(url) == ".pdf" ==> !Contains(url, ".hwp")
    ensures GuessExtension(url) == ".xlsx" ==> !Contains(url, ".hwp") && !Contains(url, ".pdf")
    ensures GuessExtension(url) == ".docx" ==>
      !Contains(url, ".hwp") && !Contains(url, ".pdf") && !Contains(url, ".xlsx")
  {
    HwpxNeverGuessed(url);
  }

  /** A sanitised name with a dot is kept as it is; otherwise exactly the guessed extension is
      appended, and that extension is one of the four reachable ones or nothing. */
  lemma GuessedNameSpec(url: string, fileName: string)
    ensures '.' in Sanitize(fileName) ==> GuessedName(url, fileName) == Sanitize(fileName)
    ensures '.' !in Sanitize(fileName) ==>
      exists ext :: ext in [".hwp", ".pdf", ".xlsx", ".docx", ""]
        && GuessedName(url, fileName) == Sanitize(fileName) + ext
    ensures '.' !in Sanitize(fileName) ==> GuessedName(url, fileName) == Sanitize(fileName) + GuessExtension(url)
  {
    HwpxNeverGuessed(url);
    if '.' !in Sanitize(fileName) {
      var ext := GuessExtension(url);
      assert ext in [".hwp", ".pdf", ".xlsx", ".docx", ""];
    }
  }

  // ---------------------------------------------------------------------------------------------
  // Attachment links

  /** A `data-href` that does not start with "http" is glued onto the site origin. */
  function NormalizeUrl(href: string): (url: string)
    ensures StartsWith(url, "http")
    ensures StartsWith(href, "http") ==> url == href
    ensures !StartsWith(href, "http") ==> url == BaseUrl + href
  {
    if StartsWith(href, "http") then href else BaseUrl + href
  }

  /** Normalising a normalised URL changes nothing. */
  lemma NormalizeIdempotent(href: string)
    ensures NormalizeUrl(NormalizeUrl(href)) == NormalizeUrl(href)
  {
  }

  const NameMarker: string := "streFileNm="

  /** The name of the `k`-th attachment: what follows the last "streFileNm=", else "file_k". */
  function AttachmentName(url: string, k: nat): string {
    if Contains(url, NameMarker) then SplitLast(url, NameMarker) else "file_" + NatToString(k)
  }

  /** With the marker, the name is the tail of the URL right after a marker and holds no marker;
      without it, the name is "file_" followed by the decimal digits of `k`. */
  lemma AttachmentNameSpec(url: string, k: nat)
    ensures Contains(url, NameMarker) ==>
      var name := AttachmentName(url, k);
      EndsWith(url, name) && PrecededBy(url, name, NameMarker) && !Contains(name, NameMarker)
    ensures !Contains(url, NameMarker) ==>
      var name := AttachmentName(url, k);
      |name| > 5 && name[..5] == "file_" && name[5..] == NatToString(k) && ParseNat(name[5..]) == k
  {
    if Contains(url, NameMarker) {
      SplitLastHasNoSeparator(url, NameMarker);
      SplitLastAfterSeparator(url, NameMarker);
    } else {
      var name := AttachmentName(url, k);
      assert name[5..] == NatToString(k);
      ParseNatToString(k);
    }
  }

  /** A `data-href` the row keeps: present and non-empty. */
  predicate Usable(h: Option<string>) {
    h.Some? && h.value != []
  }

  function MakeAttachment(href: string, k: nat): Attachment {
    var url := NormalizeUrl(href);
    Attachment(AttachmentName(url, k), url)
  }

  /** The attachments of a row: spans are visited in order and a usable one is numbered by the
      count of attachments collected before it. */
  function Attachments(hrefs: seq<Option<string>>): seq<Attachment> {
    if hrefs == [] then []
    else
      var before := Attachments(hrefs[..|hrefs| - 1]);
      var h := hrefs[|hrefs| - 1];
      if Usable(h) then before + [MakeAttachment(h.value, |before|)] else before
  }

  /** The usable `data-href` values, in order. */
  function UsableHrefs(hrefs: seq<Option<string>>): (r: seq<string>)
    ensures |r| <= |hrefs|
  {
    if hrefs == [] then []
    else
      var before := UsableHrefs(hrefs[..|hrefs| - 1]);
      var h := hrefs[|hrefs| - 1];
      if Usable(h) then before + [h.value] else before
  }

  /** Spans without a usable `data-href` are skipped and do not advance the numbering: the i-th
      attachment comes from the i-th usable href and is numbered i. */
  lemma {:induction false} AttachmentsIndexed(hrefs: seq<Option<string>>)
    ensures |Attachments(hrefs)| == |UsableHrefs(hrefs)|
    ensures forall i :: 0 <= i < |Attachments(hrefs)| ==>
      Attachments(hrefs)[i] == MakeAttachment(UsableHrefs(hrefs)[i], i)
  {
    if hrefs != [] {
      var init := hrefs[..|hrefs| - 1];
      AttachmentsIndexed(init);
      var h := hrefs[|hrefs| - 1];
      if Usable(h) {
        var before := Attachments(init);
        assert Attachments(hrefs) == before + [MakeAttachment(h.value, |before|)];
        assert UsableHrefs(hrefs) == UsableHrefs(init) + [h.value];
      }
    }
  }

  /** Collects the attachments of one row (the inner loop of `get_notice_list_with_files`). */
  method CollectAttachments(hrefs: seq<Option<string>>) returns (atts: seq<Attachment>)
    ensures atts == Attachments(hrefs)
  {
    atts := [];
    var i := 0;
    while i < |hrefs|
      invariant 0 <= i <= |hrefs|
      invariant atts == Attachments(hrefs[..i])
    {
      assert hrefs[..i + 1][..i] == hrefs[..i];
      var fileUrl := hrefs[i];
      if Usable(fileUrl) {
        var url := NormalizeUrl(fileUrl.value);
        var name := AttachmentName(url, |atts|);
        atts := atts + [Attachment(name, url)];
      }
      i := i + 1;
    }
    assert hrefs[..i] == hrefs;
  }

  /** A cell's stripped text, or `default` when the cell is missing. */
  function CellText(cell: Option<string>, default: string): string {
    if cell.Some? then Strip(cell.value) else default
  }

  /** The title link's stripped text, absent when there is no link. */
  function TitleText(link: Option<string>): Option<string> {
    if link.Some? then Some(Strip(link.value)) else None
  }

  /** The notice a row yields. */
  function RowNotice(r: RawRow): Notice {
    Notice(CellText(r.number, ""), TitleText(r.title), Attachments(r.hrefs), CellText(r.date, ""), CellText(r.views, "0"))
  }

  /** `get_notice_list_with_files`: one notice per row, in row order. */
  method GetNoticeListWithFiles(rows: seq<RawRow>) returns (notices: seq<Notice>)
    ensures |notices| == |rows|
    ensures forall i :: 0 <= i < |rows| ==> notices[i] == RowNotice(rows[i])
  {
    notices := [];
    for i := 0 to |rows|
      invariant |notices| == i
      invariant forall j :: 0 <= j < i ==> notices[j] == RowNotice(rows[j])
    {
      var row := rows[i];
      var atts := CollectAttachments(row.hrefs);
      var notice := Notice(CellText(row.number, ""), TitleText(row.title), atts, CellText(row.date, ""), CellText(row.views, "0"));
      assert notice == RowNotice(rows[i]);
      notices := notices + [notice];
    }
  }

  function NoticesOf(rows: seq<RawRow>): (ns: seq<Notice>)
    ensures |ns| == |rows|
  {
    seq(|rows|, i requires 0 <= i < |rows| => RowNotice(rows[i]))
  }

  // ---------------------------------------------------------------------------------------------
  // Total page count

  /** Where the run of digits starting at `i` ends. */
  function DigitRunEnd(s: string, i: nat): (j: nat)
    requires i <= |s|
    decreases |s| - i
    ensures i <= j <= |s|
    ensures forall k :: i <= k < j ==> IsDigit(s[k])
    ensures j < |s| ==> !IsDigit(s[j])
  {
    if i < |s| && IsDigit(s[i]) then DigitRunEnd(s, i + 1) else i
  }

  /** The pattern `(\d+)/(\d+)` matches at `i`: a digit run, a slash, and a digit. */
  predicate MarkerAt(s: string, i: nat) {
    i < |s| && IsDigit(s[i])
    && var j := DigitRunEnd(s, i);
       j + 1 < |s| && s[j] == '/' && IsDigit(s[j + 1])
  }

  /** The leftmost index at or after `i` where the pattern matches (`re.search`). */
  function MarkerFrom(s: string, i: nat): (r: Option<nat>)
    decreases |s| - i
    ensures r.Some? ==> i <= r.value && MarkerAt(s, r.value)
  {
    if i >= |s| then None
    else if MarkerAt(s, i) then Some(i)
    else MarkerFrom(s, i + 1)
  }

  lemma {:induction false} MarkerFromFirst(s: string, i: nat)
    decreases |s| - i
    ensures MarkerFrom(s, i).Some? ==> forall k :: i <= k < MarkerFrom(s, i).value ==> !MarkerAt(s, k)
    ensures MarkerFrom(s, i).None? ==> forall k :: i <= k ==> !MarkerAt(s, k)
  {
    if i < |s| && !MarkerAt(s, i) {
      MarkerFromFirst(s, i + 1);
    }
  }

  /** The digits after the slash at `k`. */
  function DigitsAfter(s: string, k: nat): (d: string)
    requires k < |s|
    ensures AllDigits(d)
  {
    s[k + 1..DigitRunEnd(s, k + 1)]
  }

  /** `int(match.group(2))` of `re.search(r'(\d+)/(\d+)', s)`, if the pattern matches. */
  function PageMarker(s: string): Option<nat> {
    match MarkerFrom(s, 0)
    case None => None
    case Some(i) => Some(ParseNat(DigitsAfter(s, DigitRunEnd(s, i))))
  }

  /** A slash with a digit on both sides. */
  predicate GoodSlash(s: string, k: int) {
    0 < k < |s| - 1 && s[k] == '/' && IsDigit(s[k - 1]) && IsDigit(s[k + 1])
  }

  lemma MarkerAtGoodSlash(s: string, i: nat)
    ensures MarkerAt(s, i) ==> GoodSlash(s, DigitRunEnd(s, i))
    ensures GoodSlash(s, i + 1) ==> MarkerAt(s, i) && DigitRunEnd(s, i) == i + 1
  {
    if GoodSlash(s, i + 1) {
      assert DigitRunEnd(s, i + 1) == i + 1;
    }
  }

  /** The regex match reads the digits after the first slash that has a digit on both sides, and
      there is a match exactly when such a slash exists. */
  lemma PageMarkerFirstSlash(s: string)
    ensures PageMarker(s).None? <==> forall k :: !GoodSlash(s, k)
    ensures forall k :: GoodSlash(s, k) && (forall k' :: 0 <= k' < k ==> !GoodSlash(s, k')) ==>
      PageMarker(s) == Some(ParseNat(DigitsAfter(s, k)))
  {
    MarkerFromFirst(s, 0);
    match MarkerFrom(s, 0)
    case None =>
      forall k | GoodSlash(s, k) ensures false {
        MarkerAtGoodSlash(s, k - 1);
      }
    case Some(i) =>
      var j := DigitRunEnd(s, i);
      MarkerAtGoodSlash(s, i);
      forall k | GoodSlash(s, k) && (forall k' :: 0 <= k' < k ==> !GoodSlash(s, k'))
        ensures k == j
      {
        MarkerAtGoodSlash(s, k - 1);
        if k < j {
          assert false;
        }
        if k > j {
          assert false;
        }
      }
  }

  /** `max(1, every purely numeric label)`, folded over the labels in order. */
  function MaxLabel(labels: seq<string>): nat {
    if labels == [] then 1
    else
      var m := MaxLabel(labels[..|labels| - 1]);
      var text := Strip(labels[|labels| - 1]);
      if IsDigits(text) && ParseNat(text) > m then ParseNat(text) else m
  }

  /** The value of a label if it is purely numeric once stripped. */
  predicate NumericLabel(labels: seq<string>, i: int, v: int) {
    0 <= i < |labels| && IsDigits(Strip(labels[i])) && ParseNat(Strip(labels[i])) == v
  }

  /** The fold is at least 1 and at least every numeric label. */
  lemma {:induction false} MaxLabelIsUpperBound(labels: seq<string>)
    ensures MaxLabel(labels) >= 1
    ensures forall i, v :: NumericLabel(labels, i, v) ==> v <= MaxLabel(labels)
  {
    MaxLabelAtLeastOne(labels);
    forall i, v | NumericLabel(labels, i, v) ensures v <= MaxLabel(labels) {
      MaxLabelCovers(labels, i, v);
    }
  }

  lemma {:induction false} MaxLabelAtLeastOne(labels: seq<string>)
    ensures MaxLabel(labels) >= 1
  {
    if labels != [] {
      MaxLabelAtLeastOne(labels[..|labels| - 1]);
    }
  }

  lemma {:induction false} MaxLabelCovers(labels: seq<string>, i: int, v: int)
    requires NumericLabel(labels, i, v)
    ensures v <= MaxLabel(labels)
  {
    var init := labels[..|labels| - 1];
    MaxLabelLast(labels);
    if i < |init| {
      assert NumericLabel(init, i, v) by {
        assert labels[i] == init[i];
      }
      MaxLabelCovers(init, i, v);
    }
  }

  /** One step of the fold: it never decreases and covers the last label. */
  lemma MaxLabelLast(labels: seq<string>)
    requires labels != []
    ensures MaxLabel(labels) >= MaxLabel(labels[..|labels| - 1])
    ensures IsDigits(Strip(labels[|labels| - 1])) ==> ParseNat(Strip(labels[|labels| - 1])) <= MaxLabel(labels)
  {
  }

  /** The fold is 1 or the value of one of the numeric labels. */
  lemma {:induction false} MaxLabelAttained(labels: seq<string>)
    ensures MaxLabel(labels) == 1 || exists i :: NumericLabel(labels, i, MaxLabel(labels))
  {
    if labels != [] {
      var init := labels[..|labels| - 1];
      var last := |labels| - 1;
      var text := Strip(labels[last]);
      if IsDigits(text) && ParseNat(text) > MaxLabel(init) {
        assert NumericLabel(labels, last, MaxLabel(labels));
      } else {
        MaxLabelAttained(init);
        if MaxLabel(init) != 1 {
          var i :| NumericLabel(init, i, MaxLabel(init));
          assert labels[i] == init[i];
          assert NumericLabel(labels, i, MaxLabel(labels));
        }
      }
    }
  }

  /** The page count `get_total_pages` settles on. */
  function TotalPages(listInfo: Option<string>, labels: seq<string>): nat {
    if listInfo.Some? && PageMarker(listInfo.value).Some? then PageMarker(listInfo.value).value
    else if labels != [] then MaxLabel(labels)
    else 1
  }

  /** `get_total_pages`: the "current/total" marker first, then the largest numeric pagination
      label (at least 1), then 1. */
  method GetTotalPages(listInfo: Option<string>, labels: seq<string>) returns (total: nat)
    ensures total == TotalPages(listInfo, labels)
  {
    if listInfo.Some? {
      var m := PageMarker(listInfo.value);
      if m.Some? {
        return m.value;
      }
    }
    if labels != [] {
      var lastPage := 1;
      for i := 0 to |labels|
        invariant lastPage == MaxLabel(labels[..i])
      {
        assert labels[..i + 1][..i] == labels[..i];
        var text := Strip(labels[i]);
        if IsDigits(text) && ParseNat(text) > lastPage {
          lastPage := ParseNat(text);
        }
      }
      assert labels[..|labels|] == labels;
      return lastPage;
    }
    return 1;
  }

  /** The three tiers: a marker decides alone; without one, pagination links give a count that is at
      least 1, at least every numeric label and attained; with neither the count is 1. */
  lemma TotalPagesTiers(listInfo: Option<string>, labels: seq<string>)
    ensures listInfo.Some? && PageMarker(listInfo.value).Some? ==>
      TotalPages(listInfo, labels) == PageMarker(listInfo.value).value
    ensures !(listInfo.Some? && PageMarker(listInfo.value).Some?) && labels != [] ==>
      && TotalPages(listInfo, labels) >= 1
      && (forall i, v :: NumericLabel(labels, i, v) ==> v <= TotalPages(listInfo, labels))
      && (TotalPages(listInfo, labels) == 1
          || exists i :: NumericLabel(labels, i, TotalPages(listInfo, labels)))
    ensures !(listInfo.Some? && PageMarker(listInfo.value).Some?) && labels == [] ==>
      TotalPages(listInfo, labels) == 1
  {
    MaxLabelIsUpperBound(labels);
    MaxLabelAttained(labels);
  }

  // ---------------------------------------------------------------------------------------------
  // Content-Disposition

  /** The leftmost index in `[i, n)` where `at` holds. */
  function Leftmost(n: nat, i: nat, at: nat -> bool): (r: Option<nat>)
    decreases n - i
    ensures r.Some? ==> i <= r.value < n && at(r.value)
  {
    if i >= n then None
    else if at(i) then Some(i)
    else Leftmost(n, i + 1, at)
  }

  lemma {:induction false} LeftmostFirst(n: nat, i: nat, at: nat -> bool)
    decreases n - i
    ensures Leftmost(n, i, at).Some? ==> forall k :: i <= k < Leftmost(n, i, at).value ==> !at(k)
    ensures Leftmost(n, i, at).None? ==> forall k :: i <= k < n ==> !at(k)
  {
    if i < n && !at(i) {
      LeftmostFirst(n, i + 1, at);
    }
  }

  /** Where the run of characters outside `stops` starting at `i` ends. */
  function RunEnd(s: string, i: nat, stops: string): (j: nat)
    requires i <= |s|
    decreases |s| - i
    ensures i <= j <= |s|
    ensures forall k :: i <= k < j ==> s[k] !in stops
    ensures j < |s| ==> s[j] in stops
  {
    if i < |s| && s[i] !in stops then RunEnd(s, i + 1, stops) else i
  }

  const StarMarker: string := "filename*=UTF-8''"

  /** `filename\*=UTF-8''(.+)` matches at `k`: the marker and at least one character that is not a
      line break. */
  predicate StarAt(cd: string, k: nat) {
    OccursAt(cd, StarMarker, k) && k + |StarMarker| < |cd| && cd[k + |StarMarker|] != '\n'
  }

  function StarMatches(cd: string): nat -> bool {
    (k: nat) => StarAt(cd, k)
  }

  /** Group 1 of the leftmost `filename\*=UTF-8''(.+)` match: the rest of the line. */
  function StarName(cd: string): (r: Option<string>)
    ensures r.Some? ==> r.value != [] && '\n' !in r.value
  {
    match Leftmost(|cd|, 0, StarMatches(cd))
    case None => None
    case Some(k) =>
      var b := k + |StarMarker|;
      var r := cd[b..RunEnd(cd, b, "\n")];
      assert r[0] == cd[b];
      Some(r)
  }

  /** Where group 1 of `filename[^;=\n]*=["']?([^"';]+)` starts when the pattern matches at `k`.
      The run after "filename" holds no '=', so the '=' must be the first character ending it; an
      opening quote is skipped only if a name character follows it. */
  function PlainStart(cd: string, k: nat): Option<nat> {
    if !OccursAt(cd, "filename", k) then None
    else
      var e := RunEnd(cd, k + 8, ";=\n");
      if e < |cd| && cd[e] == '=' then
        var q := e + 1;
        var st := if q < |cd| && cd[q] in "\"'" then q + 1 else q;
        if st < |cd| && cd[st] !in "\"';" then Some(st) else None
      else None
  }

  function PlainMatches(cd: string): nat -> bool {
    (k: nat) => PlainStart(cd, k).Some?
  }

  /** Group 1 of the leftmost `filename[^;=\n]*=["']?([^"';]+)` match. */
  function PlainName(cd: string): (r: Option<string>)
    ensures r.Some? ==> r.value != [] && forall c :: c in r.value ==> c !in "\"';"
  {
    match Leftmost(|cd|, 0, PlainMatches(cd))
    case None => None
    case Some(k) =>
      var st := PlainStart(cd, k).value;
      var r := cd[st..RunEnd(cd, st, "\"';")];
      assert r[0] == cd[st];
      Some(r)
  }

  /** The raw name a Content-Disposition header supplies: the `filename*=UTF-8''` form whenever
      the header mentions "filename*=", else the plain form whenever it mentions "filename=". */
  function DispositionName(cd: string): Option<string> {
    if Contains(cd, "filename*=") then StarName(cd)
    else if Contains(cd, "filename=") then PlainName(cd)
    else None
  }

  lemma OccursContains(s: string, t: string, k: int)
    requires OccursAt(s, t, k)
    ensures Contains(s, t)
  {
    FindFromFirst(s, t, 0);
  }

  /** A header that mentions "filename*=" without the `UTF-8''` form yields no name at all, even
      when it also has a plain `filename=` part. */
  lemma DispositionNoFallback(cd: string)
    requires Contains(cd, "filename*=") && !Contains(cd, StarMarker)
    ensures DispositionName(cd) == None
  {
    match Leftmost(|cd|, 0, StarMatches(cd))
    case None =>
    case Some(k) =>
      OccursContains(cd, StarMarker, k);
      assert false;
  }

  const AttachmentPrefix: string := "attachment; "

  lemma NoMatchInPrefix(cd: string, t: string, k: nat)
    requires AttachmentPrefix <= cd && t != [] && t[0] == 'f' && k < |AttachmentPrefix|
    ensures !OccursAt(cd, t, k)
  {
    assert cd[k] == AttachmentPrefix[k] != 'f';
  }

  /** The name of an RFC 5987 style header `attachment; filename*=UTF-8''<v>` is read back as `v`. */
  lemma StarRoundTrip(v: string)
    requires v != [] && '\n' !in v
    ensures DispositionName(AttachmentPrefix + StarMarker + v) == Some(v)
  {
    var cd := AttachmentPrefix + StarMarker + v;
    var b := |AttachmentPrefix| + |StarMarker|;
    assert cd[12..22] == "filename*=";
    OccursContains(cd, "filename*=", 12);
    assert StarAt(cd, 12) by {
      assert cd[12..12 + |StarMarker|] == StarMarker;
      assert cd[b] == v[0];
    }
    var at := StarMatches(cd);
    assert at(12);
    LeftmostFirst(|cd|, 0, at);
    forall k | 0 <= k < 12 ensures !at(k) {
      NoMatchInPrefix(cd, StarMarker, k);
    }
    var k := Leftmost(|cd|, 0, at).value;
    assert k == 12;
    var j := RunEnd(cd, b, "\n");
    forall i | b <= i < |cd| ensures cd[i] != '\n' {
      assert cd[i] == v[i - b] && v[i - b] in v;
    }
    assert cd[b..] == v;
    assert b == k + |StarMarker|;
    assert cd[b..RunEnd(cd, b, "\n")] == v;
    assert Leftmost(|cd|, 0, StarMatches(cd)) == Some(12);
    assert StarName(cd) == Some(v);
  }

  /** The name of a plain header `attachment; filename="<v>"` is read back as `v` when `v` holds no
      quote, semicolon or '*'. */
  lemma PlainRoundTrip(v: string)
    requires v != [] && forall c :: c in v ==> c !in "\"';*"
    ensures DispositionName(AttachmentPrefix + "filename=\"" + v + "\"") == Some(v)
  {
    var cd := AttachmentPrefix + "filename=\"" + v + "\"";
    PlainHeaderHasNoStar(v);
    assert cd[12..21] == "filename=";
    OccursContains(cd, "filename=", 12);
    PlainHeaderName(v);
  }

  lemma PlainHeaderHasNoStar(v: string)
    requires forall c :: c in v ==> c != '*'
    ensures !Contains(AttachmentPrefix + "filename=\"" + v + "\"", "filename*=")
  {
    var cd := AttachmentPrefix + "filename=\"" + v + "\"";
    forall i | 0 <= i < |cd| ensures cd[i] != '*' {
      if i < 22 {
        assert cd[i] == (AttachmentPrefix + "filename=\"")[i];
      } else if i < 22 + |v| {
        assert cd[i] == v[i - 22] && v[i - 22] in v;
      }
    }
    forall k | 0 <= k && k + 10 <= |cd| ensures !OccursAt(cd, "filename*=", k) {
      assert cd[k..k + 10][8] == cd[k + 8];
    }
  }

  lemma PlainHeaderName(v: string)
    requires v != [] && forall c :: c in v ==> c !in "\"';"
    ensures PlainName(AttachmentPrefix + "filename=\"" + v + "\"") == Some(v)
  {
    var cd := AttachmentPrefix + "filename=\"" + v + "\"";
    assert |cd| == 23 + |v|;
    assert cd[12..20] == "filename";
    assert cd[20] == '=' && cd[21] == '"' && cd[22] == v[0] && v[0] in v;
    assert RunEnd(cd, 20, ";=\n") == 20;
    assert PlainStart(cd, 12) == Some(22);
    var at := PlainMatches(cd);
    assert at(12);
    LeftmostFirst(|cd|, 0, at);
    forall k | 0 <= k < 12 ensures !at(k) {
      NoMatchInPrefix(cd, "filename", k);
    }
    var k := Leftmost(|cd|, 0, at).value;
    assert k == 12;
    var j := RunEnd(cd, 22, "\"';");
    assert cd[22 + |v|] == '"';
    assert cd[22..j] == v;
  }

  // ---------------------------------------------------------------------------------------------
  // Downloading one attachment

  /** What the file request ends in: an exception before any header is read, or a response with
      its Content-Disposition header ("" when absent), whether `raise_for_status` passed and
      whether the file could be opened and written. */
  datatype Fetch = Failed | Response(disposition: string, statusOk: bool, written: bool)

  /** The result of `download_file`: the path it returns, the files that exist afterwards, and
      whether it sent a request. */
  datatype Download = Download(path: Option<string>, files: set<string>, requested: bool)

  /** The path the response is written to: the header's name, decoded and sanitised, when the
      header yields one, else the guessed path. */
  function SavePath(folder: string, guessed: string, cd: string, unquote: string -> string): string {
    match DispositionName(cd)
    case None => PathJoin(folder, guessed)
    case Some(v) => PathJoin(folder, Sanitize(unquote(v)))
  }

  /** `download_file` with the filesystem as the set of existing paths and the request's outcome
      given. */
  function DownloadOutcome(
    url: string, fileName: string, folder: string, files: set<string>,
    fetch: Fetch, unquote: string -> string): Download
  {
    var guessed := GuessedName(url, fileName);
    var guessedPath := PathJoin(folder, guessed);
    if guessedPath in files then Download(Some(guessedPath), files, false)
    else
      match fetch
      case Failed => Download(None, files, true)
      case Response(cd, ok, written) =>
        if ok && written then
          var path := SavePath(folder, guessed, cd, unquote);
          Download(Some(path), files + {path}, true)
        else Download(None, files, true)
  }

  /** `download_file`: clean the name, add a guessed extension, skip an existing file, and otherwise
      let the response's Content-Disposition choose the name the body is saved under. */
  method DownloadFile(
    fileUrl: string, fileName: string, noticeFolder: string, files: set<string>,
    fetch: Fetch, unquote: string -> string)
    returns (path: Option<string>, filesAfter: set<string>, requested: bool)
    ensures Download(path, filesAfter, requested)
      == DownloadOutcome(fileUrl, fileName, noticeFolder, files, fetch, unquote)
  {
    var safeFilename := Sanitize(fileName);
    if '.' !in safeFilename {
      var ext := GuessExtension(fileUrl);
      safeFilename := safeFilename + ext;
    }
    var filePath := PathJoin(noticeFolder, safeFilename);
    if filePath in files {
      return Some(filePath), files, false;
    }
    if fetch.Failed? {
      return None, files, true;
    }
    var contentDisposition := fetch.disposition;
    if contentDisposition != [] {
      if Contains(contentDisposition, "filename*=") {
        var m := StarName(contentDisposition);
        if m.Some? {
          safeFilename := Sanitize(unquote(m.value));
          filePath := PathJoin(noticeFolder, safeFilename);
        }
      } else if Contains(contentDisposition, "filename=") {
        var m := PlainName(contentDisposition);
        if m.Some? {
          safeFilename := Sanitize(unquote(m.value));
          filePath := PathJoin(noticeFolder, safeFilename);
        }
      }
    }
    if !fetch.statusOk || !fetch.written {
      return None, files, true;
    }
    return Some(filePath), files + {filePath}, true;
  }

  /** The guessed name holds no '/': the sanitiser removed them and no extension has one. */
  lemma GuessedNameHasNoSlash(url: string, fileName: string)
    ensures '/' !in GuessedName(url, fileName)
  {
    SanitizeLegal(fileName);
    assert IsIllegal('/');
    assert '/' !in Sanitize(fileName);
  }

  /** Both kinds of save path put a plain file name directly inside the folder. */
  lemma SavePathInFolder(folder: string, guessed: string, cd: string, unquote: string -> string)
    requires '/' !in guessed
    ensures var p := SavePath(folder, guessed, cd, unquote);
      '/' !in BaseName(p) && p == PathJoin(folder, BaseName(p))
  {
    match DispositionName(cd)
    case None =>
      BaseNameOfJoin(folder, guessed);
    case Some(v) =>
      var name := Sanitize(unquote(v));
      SanitizeSpec(unquote(v));
      assert IsIllegal('/');
      BaseNameOfJoin(folder, name);
  }

  /** A file that already exists under the guessed name is returned without any request, and
      nothing changes. */
  lemma DownloadSkipsExisting(
    url: string, fileName: string, folder: string, files: set<string>,
    fetch: Fetch, unquote: string -> string)
    requires PathJoin(folder, GuessedName(url, fileName)) in files
    ensures DownloadOutcome(url, fileName, folder, files, fetch, unquote)
      == Download(Some(PathJoin(folder, GuessedName(url, fileName))), files, false)
  {
  }

  /** Whatever the header says, a returned path is a plain file name directly inside the notice
      folder, and it exists afterwards. */
  lemma DownloadStaysInFolder(
    url: string, fileName: string, folder: string, files: set<string>,
    fetch: Fetch, unquote: string -> string)
    ensures var d := DownloadOutcome(url, fileName, folder, files, fetch, unquote);
      d.path.Some? ==>
        && d.path.value in d.files
        && '/' !in BaseName(d.path.value)
        && d.path.value == PathJoin(folder, BaseName(d.path.value))
  {
    var d := DownloadOutcome(url, fileName, folder, files, fetch, unquote);
    var guessed := GuessedName(url, fileName);
    GuessedNameHasNoSlash(url, fileName);
    if PathJoin(folder, guessed) in files {
      BaseNameOfJoin(folder, guessed);
      assert d.path == Some(PathJoin(folder, guessed));
    } else if d.path.Some? {
      SavePathInFolder(folder, guessed, fetch.disposition, unquote);
      assert d.path == Some(SavePath(folder, guessed, fetch.disposition, unquote));
    }
  }

  /** A call adds at most the path it returns, and a call that returns nothing sent a request and
      changed nothing. */
  lemma DownloadFilesChange(
    url: string, fileName: string, folder: string, files: set<string>,
    fetch: Fetch, unquote: string -> string)
    ensures var d := DownloadOutcome(url, fileName, folder, files, fetch, unquote);
      d.files == files || (d.path.Some? && d.files == files + {d.path.value})
    ensures var d := DownloadOutcome(url, fileName, folder, files, fetch, unquote);
      d.path.None? ==> d.requested && d.files == files
  {
  }

  /** A download saved under the guessed name is not repeated: the next call finds it and sends
      no request. */
  lemma DownloadIdempotent(
    url: string, fileName: string, folder: string, files: set<string>,
    fetch: Fetch, fetch2: Fetch, unquote: string -> string)
    requires fetch.Response? && DispositionName(fetch.disposition).None?
    ensures var d := DownloadOutcome(url, fileName, folder, files, fetch, unquote);
      var d2 := DownloadOutcome(url, fileName, folder, d.files, fetch2, unquote);
      d.path.Some? ==> d2 == Download(d.path, d.files, false)
  {
  }

  /** A download renamed by its header to a different path is requested again on the next call,
      since the existence test looks only at the guessed name. */
  lemma DownloadRenamedRepeats(
    url: string, fileName: string, folder: string, files: set<string>,
    fetch: Fetch, unquote: string -> string)
    requires PathJoin(folder, GuessedName(url, fileName)) !in files
    requires fetch.Response? && fetch.statusOk && fetch.written
    requires SavePath(folder, GuessedName(url, fileName), fetch.disposition, unquote)
      != PathJoin(folder, GuessedName(url, fileName))
    ensures var d := DownloadOutcome(url, fileName, folder, files, fetch, unquote);
      DownloadOutcome(url, fileName, folder, d.files, fetch, unquote).requested
  {
    var g := PathJoin(folder, GuessedName(url, fileName));
    var p := SavePath(folder, GuessedName(url, fileName), fetch.disposition, unquote);
    var d := DownloadOutcome(url, fileName, folder, files, fetch, unquote);
    assert d.files == files + {p};
    assert g !in d.files;
  }

  // ---------------------------------------------------------------------------------------------
  // The crawl

  /** `range(lo, hi)`. */
  function Range(lo: int, hi: int): (r: seq<int>)
    decreases hi - lo
    ensures |r| == if hi <= lo then 0 else hi - lo
  {
    if hi <= lo then [] else Range(lo, hi - 1) + [hi - 1]
  }

  /** The pages requested before page `p + 1`: those before page `p`, then `p` unless it is page 1,
      which was read before the loop. */
  lemma RangeNext(p: int)
    requires p >= 1
    ensures Range(2, p + 1) == Range(2, p) + (if p == 1 then [] else [p])
  {
  }

  lemma {:induction false} RangeIndex(lo: int, hi: int)
    decreases hi - lo
    ensures forall i :: 0 <= i < |Range(lo, hi)| ==> Range(lo, hi)[i] == lo + i
  {
    if lo < hi {
      RangeIndex(lo, hi - 1);
    }
  }

  /** The number of pages crawled: the total, cut to `max_pages` unless that is None or 0. */
  function Cap(total: nat, maxPages: Option<int>): int {
    if maxPages.Some? && maxPages.value != 0 then
      (if maxPages.value < total then maxPages.value else total)
    else total
  }

  /** One page's notices after the `max_items_per_page` cut (no cut when it is None or 0). */
  function PageNotices(page: Page, maxItems: Option<int>): seq<Notice> {
    var notices := NoticesOf(page.rows);
    if maxItems.Some? && maxItems.value != 0 then SliceTo(notices, maxItems.value) else notices
  }

  /** The notices of pages 1..k, in page order; a page that could not be fetched adds nothing. */
  function Collected(getPage: nat -> Option<Page>, maxItems: Option<int>, k: nat): seq<Notice> {
    if k == 0 then []
    else
      var before := Collected(getPage, maxItems, k - 1);
      match getPage(k)
      case None => before
      case Some(page) => before + PageNotices(page, maxItems)
  }

  /** What `crawl_and_download` returns. */
  function CrawlResult(getPage: nat -> Option<Page>, maxPages: Option<int>, maxItems: Option<int>): seq<Notice> {
    match getPage(1)
    case None => []
    case Some(first) =>
      var cap := Cap(TotalPages(first.listInfo, first.pageLabels), maxPages);
      if cap <= 0 then [] else Collected(getPage, maxItems, cap)
  }

  /** The page numbers requested, in order. */
  function PagesRequested(getPage: nat -> Option<Page>, maxPages: Option<int>): seq<int> {
    match getPage(1)
    case None => [1]
    case Some(first) => [1] + Range(2, Cap(TotalPages(first.listInfo, first.pageLabels), maxPages) + 1)
  }

  predicate Titled(ns: seq<Notice>) {
    forall i :: 0 <= i < |ns| ==> ns[i].title.Some?
  }

  /** Every notice the crawl prints has a title; the source reads `notice['title']` for each one and
      would stop with a `KeyError` otherwise. */
  predicate CrawlTitled(getPage: nat -> Option<Page>, maxPages: Option<int>, maxItems: Option<int>) {
    Titled(CrawlResult(getPage, maxPages, maxItems))
  }

  /** The folder of a notice: its number, '_' and the first 50 characters of its title with the
      illegal characters replaced (not stripped), under the download directory. */
  function NoticeFolder(dir: string, n: Notice): string
    requires n.title.Some?
  {
    PathJoin(dir, n.number + "_" + SliceTo(ReplaceIllegal(n.title.value), 50))
  }

  /** One call of `download_file`. */
  datatype Attempt = Attempt(url: string, name: string, folder: string)

  function AttemptsIn(folder: string, atts: seq<Attachment>): (r: seq<Attempt>)
    ensures |r| == |atts|
    ensures forall i :: 0 <= i < |atts| ==> r[i] == Attempt(atts[i].url, atts[i].name, folder)
  {
    seq(|atts|, i requires 0 <= i < |atts| => Attempt(atts[i].url, atts[i].name, folder))
  }

  /** The download calls for a list of notices: one per attachment, in order, into that notice's
      folder. */
  function Plan(dir: string, ns: seq<Notice>): seq<Attempt>
    requires Titled(ns)
  {
    if ns == [] then []
    else
      var n := ns[|ns| - 1];
      Plan(dir, ns[..|ns| - 1]) + (if n.attachments == [] then [] else AttemptsIn(NoticeFolder(dir, n), n.attachments))
  }

  /** The folders created for a list of notices: one for each notice with an attachment. */
  function Folders(dir: string, ns: seq<Notice>): set<string>
    requires Titled(ns)
  {
    if ns == [] then {}
    else
      var n := ns[|ns| - 1];
      Folders(dir, ns[..|ns| - 1]) + (if n.attachments == [] then {} else {NoticeFolder(dir, n)})
  }

  /** The existing paths after one download call. */
  function AfterDownload(fetch: string -> Fetch, unquote: string -> string): (set<string>, Attempt) -> set<string> {
    (files: set<string>, a: Attempt) => DownloadOutcome(a.url, a.name, a.folder, files, fetch(a.url), unquote).files
  }

  /** The existing paths after a sequence of download calls, each changing them by `step`. */
  function FilesAfter(files: set<string>, attempts: seq<Attempt>, step: (set<string>, Attempt) -> set<string>): set<string> {
    if attempts == [] then files
    else step(FilesAfter(files, attempts[..|attempts| - 1], step), attempts[|attempts| - 1])
  }

  lemma {:induction false} FilesAfterAppend(
    files: set<string>, a: seq<Attempt>, b: seq<Attempt>, step: (set<string>, Attempt) -> set<string>)
    ensures FilesAfter(files, a + b, step) == FilesAfter(FilesAfter(files, a, step), b, step)
  {
    if b != [] {
      assert (a + b)[..|a + b| - 1] == a + b[..|b| - 1];
      FilesAfterAppend(files, a, b[..|b| - 1], step);
    } else {
      assert a + b == a;
    }
  }

  lemma AttemptsInSnoc(folder: string, atts: seq<Attachment>, i: nat)
    requires i < |atts|
    ensures AttemptsIn(folder, atts[..i + 1])
      == AttemptsIn(folder, atts[..i]) + [Attempt(atts[i].url, atts[i].name, folder)]
  {
  }

  lemma FilesAfterSnoc(
    files: set<string>, attempts: seq<Attempt>, a: Attempt, step: (set<string>, Attempt) -> set<string>)
    ensures FilesAfter(files, attempts + [a], step) == step(FilesAfter(files, attempts, step), a)
  {
    assert (attempts + [a])[..|attempts|] == attempts;
  }

  /** The attachment loop of one notice. */
  method DownloadAll(
    folder: string, atts: seq<Attachment>, files0: set<string>,
    fetch: string -> Fetch, unquote: string -> string)
    returns (attempts: seq<Attempt>, files: set<string>)
    ensures attempts == AttemptsIn(folder, atts)
    ensures files == FilesAfter(files0, attempts, AfterDownload(fetch, unquote))
  {
    attempts := [];
    files := files0;
    for i := 0 to |atts|
      invariant attempts == AttemptsIn(folder, atts[..i])
      invariant files == FilesAfter(files0, attempts, AfterDownload(fetch, unquote))
    {
      var attachment := atts[i];
      var _, filesAfter, _ := DownloadFile(attachment.url, attachment.name, folder, files, fetch(attachment.url), unquote);
      var attempt := Attempt(attachment.url, attachment.name, folder);
      AttemptsInSnoc(folder, atts, i);
      assert filesAfter == AfterDownload(fetch, unquote)(files, attempt);
      FilesAfterSnoc(files0, attempts, attempt, AfterDownload(fetch, unquote));
      attempts := attempts + [attempt];
      files := filesAfter;
    }
    assert atts[..|atts|] == atts;
  }

  /** One page of the crawl: its notices, cut to `max_items_per_page` unless that is None or 0. */
  method ProcessPage(
    dir: string, page: Page, maxItems: Option<int>, files0: set<string>, dirs0: set<string>,
    fetch: string -> Fetch, unquote: string -> string)
    returns (ns: seq<Notice>, attempts: seq<Attempt>, files: set<string>, dirs: set<string>)
    requires Titled(PageNotices(page, maxItems))
    ensures ns == PageNotices(page, maxItems)
    ensures attempts == Plan(dir, ns)
    ensures files == FilesAfter(files0, attempts, AfterDownload(fetch, unquote))
    ensures dirs == dirs0 + Folders(dir, ns)
  {
    ns := NoticesOf(page.rows);
    if maxItems.Some? && maxItems.value != 0 {
      ns := SliceTo(ns, maxItems.value);
    }
    attempts, files, dirs := SaveNotices(dir, ns, files0, dirs0, fetch, unquote);
  }

  /** The notice loop of one page: a folder for each notice with attachments, and a download call
      for each attachment. */
  method SaveNotices(
    dir: string, ns: seq<Notice>, files0: set<string>, dirs0: set<string>,
    fetch: string -> Fetch, unquote: string -> string)
    returns (attempts: seq<Attempt>, files: set<string>, dirs: set<string>)
    requires Titled(ns)
    ensures attempts == Plan(dir, ns)
    ensures files == FilesAfter(files0, attempts, AfterDownload(fetch, unquote))
    ensures dirs == dirs0 + Folders(dir, ns)
  {
    attempts := [];
    files := files0;
    dirs := dirs0;
    for i := 0 to |ns|
      invariant Titled(ns[..i])
      invariant attempts == Plan(dir, ns[..i])
      invariant files == FilesAfter(files0, attempts, AfterDownload(fetch, unquote))
      invariant dirs == dirs0 + Folders(dir, ns[..i])
    {
      var notice := ns[i];
      NoticeStep(dir, ns, i);
      if notice.attachments != [] {
        var noticeFolder := NoticeFolder(dir, notice);
        dirs := dirs + {noticeFolder};
        var more, filesAfter := DownloadAll(noticeFolder, notice.attachments, files, fetch, unquote);
        FilesAfterAppend(files0, attempts, more, AfterDownload(fetch, unquote));
        attempts := attempts + more;
        files := filesAfter;
      }
    }
    assert ns[..|ns|] == ns;
  }

  /** Saving one more notice: its download calls and its folder follow those of the notices
      before it. */
  lemma NoticeStep(dir: string, ns: seq<Notice>, i: int)
    requires Titled(ns) && 0 <= i < |ns|
    ensures Titled(ns[..i]) && Titled(ns[..i + 1])
    ensures Plan(dir, ns[..i + 1]) == Plan(dir, ns[..i])
      + (if ns[i].attachments == [] then [] else AttemptsIn(NoticeFolder(dir, ns[i]), ns[i].attachments))
    ensures Folders(dir, ns[..i + 1]) == Folders(dir, ns[..i])
      + (if ns[i].attachments == [] then {} else {NoticeFolder(dir, ns[i])})
  {
    assert ns[..i + 1][..i] == ns[..i];
    TitledPrefix(ns[..i + 1], ns);
    TitledPrefix(ns[..i], ns);
  }

  lemma {:induction false} CollectedPrefix(getPage: nat -> Option<Page>, maxItems: Option<int>, j: nat, k: nat)
    requires j <= k
    decreases k - j
    ensures Collected(getPage, maxItems, j) <= Collected(getPage, maxItems, k)
  {
    if j < k {
      CollectedPrefix(getPage, maxItems, j, k - 1);
    }
  }

  lemma TitledPrefix(a: seq<Notice>, b: seq<Notice>)
    requires a <= b && Titled(b)
    ensures Titled(a)
  {
    assert forall i :: 0 <= i < |a| ==> a[i] == b[i];
  }

  lemma TitledJoin(a: seq<Notice>, b: seq<Notice>)
    requires Titled(a) && Titled(b)
    ensures Titled(a + b)
  {
    forall i | 0 <= i < |a + b| ensures (a + b)[i].title.Some? {
      if i < |a| {
        assert (a + b)[i] == a[i];
      } else {
        assert (a + b)[i] == b[i - |a|];
      }
    }
  }

  lemma TitledParts(a: seq<Notice>, b: seq<Notice>)
    requires Titled(a + b)
    ensures Titled(a) && Titled(b)
  {
    assert forall i :: 0 <= i < |a| ==> a[i] == (a + b)[i];
    assert forall i :: 0 <= i < |b| ==> b[i] == (a + b)[|a| + i];
  }

  lemma {:induction false} PlanAppend(dir: string, a: seq<Notice>, b: seq<Notice>)
    requires Titled(a) && Titled(b)
    ensures Titled(a + b)
    ensures Plan(dir, a + b) == Plan(dir, a) + Plan(dir, b)
  {
    TitledJoin(a, b);
    if b != [] {
      var b' := b[..|b| - 1];
      var n := b[|b| - 1];
      assert (a + b)[..|a + b| - 1] == a + b';
      assert (a + b)[|a + b| - 1] == n;
      TitledPrefix(b', b);
      PlanAppend(dir, a, b');
      var more := if n.attachments == [] then [] else AttemptsIn(NoticeFolder(dir, n), n.attachments);
      assert Plan(dir, a + b) == Plan(dir, a + b') + more;
      assert Plan(dir, b) == Plan(dir, b') + more;
      AppendAssoc(Plan(dir, a), Plan(dir, b'), more);
    } else {
      assert a + b == a;
    }
  }

  lemma AppendAssoc<T>(x: seq<T>, y: seq<T>, z: seq<T>)
    ensures (x + y) + z == x + (y + z)
  {
  }

  lemma {:induction false} FoldersAppend(dir: string, a: seq<Notice>, b: seq<Notice>)
    requires Titled(a) && Titled(b)
    ensures Titled(a + b)
    ensures Folders(dir, a + b) == Folders(dir, a) + Folders(dir, b)
  {
    TitledJoin(a, b);
    if b != [] {
      var b' := b[..|b| - 1];
      assert (a + b)[..|a + b| - 1] == a + b';
      TitledPrefix(b', b);
      FoldersAppend(dir, a, b');
    } else {
      assert a + b == a;
    }
  }

  /** With page 1 fetched, the crawl's result and requests are those of pages 1..limit, where the
      limit is the capped page count, or 0 when that is not positive. */
  lemma CrawlShape(getPage: nat -> Option<Page>, maxPages: Option<int>, maxItems: Option<int>, limit: nat)
    requires getPage(1).Some?
    requires var cap := Cap(TotalPages(getPage(1).value.listInfo, getPage(1).value.pageLabels), maxPages);
      limit == if cap <= 0 then 0 else cap
    ensures CrawlResult(getPage, maxPages, maxItems) == Collected(getPage, maxItems, limit)
    ensures PagesRequested(getPage, maxPages) == [1] + Range(2, limit + 1)
  {
  }

  /** Page k of 1..limit adds its cut notices, and they are titled when the whole crawl is. */
  lemma PageStep(getPage: nat -> Option<Page>, maxItems: Option<int>, limit: nat, k: nat, page: Page)
    requires 1 <= k <= limit && getPage(k) == Some(page)
    requires Titled(Collected(getPage, maxItems, limit))
    ensures Collected(getPage, maxItems, k) == Collected(getPage, maxItems, k - 1) + PageNotices(page, maxItems)
    ensures Titled(Collected(getPage, maxItems, k)) && Titled(PageNotices(page, maxItems))
  {
    CollectedPrefix(getPage, maxItems, k, limit);
    TitledPrefix(Collected(getPage, maxItems, k), Collected(getPage, maxItems, limit));
    TitledParts(Collected(getPage, maxItems, k - 1), PageNotices(page, maxItems));
  }

  /** The state of the crawl after pages 1..k: the notices kept, the downloads made, the paths
      that exist and the folders created. */
  predicate CrawlState(
    dir: string, getPage: nat -> Option<Page>, maxItems: Option<int>, step: (set<string>, Attempt) -> set<string>,
    files0: set<string>, dirs0: set<string>, k: nat,
    allNotices: seq<Notice>, attempts: seq<Attempt>, files: set<string>, dirs: set<string>)
  {
    && allNotices == Collected(getPage, maxItems, k)
    && Titled(allNotices)
    && attempts == Plan(dir, allNotices)
    && files == FilesAfter(files0, attempts, step)
    && dirs == dirs0 + Folders(dir, allNotices)
  }

  /** Page k, when fetched, extends the state by its notices, downloads and folders. */
  lemma CrawlAdvance(
    dir: string, getPage: nat -> Option<Page>, maxItems: Option<int>, step: (set<string>, Attempt) -> set<string>,
    files0: set<string>, dirs0: set<string>, k: nat, page: Page,
    allNotices: seq<Notice>, attempts: seq<Attempt>, files: set<string>, dirs: set<string>,
    notices: seq<Notice>, more: seq<Attempt>, filesAfter: set<string>, dirsAfter: set<string>)
    requires 1 <= k && getPage(k) == Some(page)
    requires CrawlState(dir, getPage, maxItems, step, files0, dirs0, k - 1, allNotices, attempts, files, dirs)
    requires notices == PageNotices(page, maxItems) && Titled(notices)
    requires more == Plan(dir, notices)
    requires filesAfter == FilesAfter(files, more, step)
    requires dirsAfter == dirs + Folders(dir, notices)
    ensures CrawlState(dir, getPage, maxItems, step, files0, dirs0, k,
      allNotices + notices, attempts + more, filesAfter, dirsAfter)
  {
    PlanAppend(dir, allNotices, notices);
    FoldersAppend(dir, allNotices, notices);
    FilesAfterAppend(files0, attempts, more, step);
  }

  /** A page that could not be fetched leaves the state as it was. */
  lemma CrawlSkip(
    dir: string, getPage: nat -> Option<Page>, maxItems: Option<int>, step: (set<string>, Attempt) -> set<string>,
    files0: set<string>, dirs0: set<string>, k: nat,
    allNotices: seq<Notice>, attempts: seq<Attempt>, files: set<string>, dirs: set<string>)
    requires 1 <= k && getPage(k).None?
    requires CrawlState(dir, getPage, maxItems, step, files0, dirs0, k - 1, allNotices, attempts, files, dirs)
    ensures CrawlState(dir, getPage, maxItems, step, files0, dirs0, k, allNotices, attempts, files, dirs)
  {
  }

  /** `crawl_and_download`: fetch page 1, settle the page count, and crawl pages 1..count (reusing
      page 1), cutting each page's notices and downloading every attachment into its notice's
      folder. */
  method CrawlAndDownload(
    downloadDir: string, getPage: nat -> Option<Page>, fetch: string -> Fetch,
    unquote: string -> string, maxPages: Option<int>, maxItems: Option<int>,
    files0: set<string>, dirs0: set<string>)
    returns (allNotices: seq<Notice>, requests: seq<int>, attempts: seq<Attempt>,
             files: set<string>, dirs: set<string>)
    requires CrawlTitled(getPage, maxPages, maxItems)
    ensures allNotices == CrawlResult(getPage, maxPages, maxItems)
    ensures requests == PagesRequested(getPage, maxPages)
    ensures attempts == Plan(downloadDir, allNotices)
    ensures files == FilesAfter(files0, attempts, AfterDownload(fetch, unquote))
    ensures dirs == dirs0 + Folders(downloadDir, allNotices)
  {
    var html := getPage(1);
    requests := [1];
    if html.None? {
      CrawlFirstMissing(downloadDir, getPage, maxPages, maxItems, files0, AfterDownload(fetch, unquote));
      return [], requests, [], files0, dirs0;
    }
    var totalPages := GetTotalPages(html.value.listInfo, html.value.pageLabels);
    var total: int := totalPages;
    if maxPages.Some? && maxPages.value != 0 {
      total := if maxPages.value < totalPages then maxPages.value else totalPages;
    }
    ghost var limit: nat := if total <= 0 then 0 else total;
    CrawlShape(getPage, maxPages, maxItems, limit);
    var more;
    allNotices, more, attempts, files, dirs := CrawlPages(downloadDir, getPage, maxItems, fetch, unquote,
      files0, dirs0, AfterDownload(fetch, unquote), html.value, total, limit);
    requests := requests + more;
  }

  /** The page loop of `crawl_and_download`: pages 1 to `total` in order, page 1 reusing the copy
      already read and the others requested; an unreadable page is skipped. */
  method CrawlPages(
    dir: string, getPage: nat -> Option<Page>, maxItems: Option<int>,
    fetch: string -> Fetch, unquote: string -> string, files0: set<string>, dirs0: set<string>,
    step: (set<string>, Attempt) -> set<string>, first: Page, total: int, ghost limit: nat)
    returns (allNotices: seq<Notice>, requests: seq<int>, attempts: seq<Attempt>,
             files: set<string>, dirs: set<string>)
    requires step == AfterDownload(fetch, unquote)
    requires getPage(1) == Some(first)
    requires limit == if total <= 0 then 0 else total
    requires Titled(Collected(getPage, maxItems, limit))
    ensures requests == Range(2, limit + 1)
    ensures CrawlState(dir, getPage, maxItems, step, files0, dirs0,
      limit, allNotices, attempts, files, dirs)
  {
    allNotices := [];
    attempts := [];
    files := files0;
    dirs := dirs0;
    requests := [];
    var pageNum := 1;
    while pageNum <= total
      invariant 1 <= pageNum <= limit + 1
      invariant requests == Range(2, pageNum)
      invariant CrawlState(dir, getPage, maxItems, step, files0, dirs0,
        pageNum - 1, allNotices, attempts, files, dirs)
    {
      RangeNext(pageNum);
      allNotices, requests, attempts, files, dirs := CrawlVisit(dir, getPage, maxItems, fetch, unquote,
        files0, dirs0, step, first, limit, pageNum, allNotices, requests, attempts, files, dirs);
      pageNum := pageNum + 1;
    }
    CrawlDone(dir, getPage, maxItems, step, files0, dirs0, limit,
      pageNum, allNotices, requests, attempts, files, dirs);
  }

  /** One pass of the crawl loop over page `k`: page 1 is the copy already read, any other page is
      requested; a page that could be read has its notices collected and saved, and the crawl state
      moves on by one page. */
  method CrawlVisit(
    dir: string, getPage: nat -> Option<Page>, maxItems: Option<int>,
    fetch: string -> Fetch, unquote: string -> string, files0: set<string>, dirs0: set<string>,
    step: (set<string>, Attempt) -> set<string>, first: Page, ghost limit: nat, k: nat,
    allNotices: seq<Notice>, requests: seq<int>, attempts: seq<Attempt>, files: set<string>, dirs: set<string>)
    returns (allNotices': seq<Notice>, requests': seq<int>, attempts': seq<Attempt>,
             files': set<string>, dirs': set<string>)
    requires step == AfterDownload(fetch, unquote)
    requires getPage(1) == Some(first)
    requires 1 <= k <= limit
    requires Titled(Collected(getPage, maxItems, limit))
    requires CrawlState(dir, getPage, maxItems, step, files0, dirs0,
      k - 1, allNotices, attempts, files, dirs)
    ensures requests' == requests + (if k == 1 then [] else [k])
    ensures CrawlState(dir, getPage, maxItems, step, files0, dirs0,
      k, allNotices', attempts', files', dirs')
  {
    var pageHtml := Some(first);
    requests' := requests;
    if k != 1 {
      pageHtml := getPage(k);
      requests' := requests + [k];
    }
    if pageHtml.None? {
      CrawlSkip(dir, getPage, maxItems, step, files0, dirs0, k, allNotices, attempts, files, dirs);
      return allNotices, requests', attempts, files, dirs;
    }
    var page := pageHtml.value;
    PageStep(getPage, maxItems, limit, k, page);
    var notices, more, filesAfter, dirsAfter := ProcessPage(dir, page, maxItems, files, dirs, fetch, unquote);
    CrawlAdvance(dir, getPage, maxItems, step, files0, dirs0,
      k, page, allNotices, attempts, files, dirs, notices, more, filesAfter, dirsAfter);
    allNotices' := allNotices + notices;
    attempts' := attempts + more;
    files' := filesAfter;
    dirs' := dirsAfter;
  }

  /** The loop state once every page is done. */
  lemma CrawlDone(
    dir: string, getPage: nat -> Option<Page>, maxItems: Option<int>, step: (set<string>, Attempt) -> set<string>,
    files0: set<string>, dirs0: set<string>, limit: nat, pageNum: int,
    allNotices: seq<Notice>, requests: seq<int>, attempts: seq<Attempt>, files: set<string>, dirs: set<string>)
    requires pageNum == limit + 1
    requires requests == Range(2, pageNum)
    requires CrawlState(dir, getPage, maxItems, step, files0, dirs0, pageNum - 1, allNotices, attempts, files, dirs)
    ensures requests == Range(2, limit + 1)
    ensures CrawlState(dir, getPage, maxItems, step, files0, dirs0, limit, allNotices, attempts, files, dirs)
  {
  }

  /** When page 1 cannot be read the crawl requests nothing more and downloads nothing. */
  lemma CrawlFirstMissing(
    dir: string, getPage: nat -> Option<Page>, maxPages: Option<int>, maxItems: Option<int>,
    files0: set<string>, step: (set<string>, Attempt) -> set<string>)
    requires getPage(1).None?
    ensures CrawlResult(getPage, maxPages, maxItems) == []
    ensures PagesRequested(getPage, maxPages) == [1]
    ensures Plan(dir, []) == [] && FilesAfter(files0, [], step) == files0 && Folders(dir, []) == {}
  {
  }

  /** Pages are requested as 1, 2, .., count in increasing order, page 1 exactly once; when page 1
      fails nothing else is requested and the crawl returns no notices. */
  lemma PagesRequestedSpec(getPage: nat -> Option<Page>, maxPages: Option<int>, maxItems: Option<int>)
    ensures var r := PagesRequested(getPage, maxPages);
      forall i :: 0 <= i < |r| ==> r[i] == i + 1
    ensures getPage(1).Some? ==>
      var cap := Cap(TotalPages(getPage(1).value.listInfo, getPage(1).value.pageLabels), maxPages);
      |PagesRequested(getPage, maxPages)| == if cap <= 1 then 1 else cap
    ensures getPage(1).None? ==> PagesRequested(getPage, maxPages) == [1] && CrawlResult(getPage, maxPages, maxItems) == []
  {
    if getPage(1).Some? {
      var cap := Cap(TotalPages(getPage(1).value.listInfo, getPage(1).value.pageLabels), maxPages);
      var r := PagesRequested(getPage, maxPages);
      assert r == [1] + Range(2, cap + 1);
      RangeIndex(2, cap + 1);
      assert forall i :: 1 <= i < |r| ==> r[i] == Range(2, cap + 1)[i - 1];
    }
  }

  /** The page count is the total found on page 1, cut to `max_pages` when that is set and not 0. */
  lemma CapSpec(total: nat, maxPages: Option<int>)
    ensures maxPages.None? || maxPages == Some(0) ==> Cap(total, maxPages) == total
    ensures maxPages.Some? && maxPages.value != 0 ==>
      Cap(total, maxPages) <= total && Cap(total, maxPages) <= maxPages.value
      && (Cap(total, maxPages) == total || Cap(total, maxPages) == maxPages.value)
  {
  }

  /** A page contributes a prefix of its notices: the first `m` of them for a positive cut `m`,
      all of them when there is no cut. */
  lemma PageNoticesSpec(page: Page, maxItems: Option<int>)
    ensures PageNotices(page, maxItems) <= NoticesOf(page.rows)
    ensures maxItems.None? || maxItems == Some(0) ==> PageNotices(page, maxItems) == NoticesOf(page.rows)
    ensures maxItems.Some? && maxItems.value > 0 ==>
      |PageNotices(page, maxItems)| == if maxItems.value < |page.rows| then maxItems.value else |page.rows|
  {
  }

  /** With a positive cut `m`, pages 1..k yield at most k * m notices. */
  lemma {:induction false} CollectedBound(getPage: nat -> Option<Page>, maxItems: Option<int>, k: nat)
    requires maxItems.Some? && maxItems.value > 0
    ensures |Collected(getPage, maxItems, k)| <= k * maxItems.value
  {
    if k > 0 {
      var m := maxItems.value;
      CollectedBound(getPage, maxItems, k - 1);
      assert k * m == (k - 1) * m + m;
      match getPage(k)
      case None =>
      case Some(page) =>
        PageNoticesSpec(page, maxItems);
        assert |PageNotices(page, maxItems)| <= m;
    }
  }

  /** The crawl returns at most (page count) * `max_items_per_page` notices. */
  lemma CrawlBound(getPage: nat -> Option<Page>, maxPages: Option<int>, maxItems: Option<int>)
    requires getPage(1).Some? && maxItems.Some? && maxItems.value > 0
    ensures var cap := Cap(TotalPages(getPage(1).value.listInfo, getPage(1).value.pageLabels), maxPages);
      |CrawlResult(getPage, maxPages, maxItems)| <= (if cap <= 0 then 0 else cap) * maxItems.value
  {
    var cap := Cap(TotalPages(getPage(1).value.listInfo, getPage(1).value.pageLabels), maxPages);
    if cap > 0 {
      CollectedBound(getPage, maxItems, cap);
    }
  }

  /** Number of attachments over a list of notices. */
  function AttachmentCount(ns: seq<Notice>): nat {
    if ns == [] then 0 else AttachmentCount(ns[..|ns| - 1]) + |ns[|ns| - 1].attachments|
  }

  /** Each attachment gets exactly one download call, into its notice's folder. */
  lemma {:induction false} PlanCount(dir: string, ns: seq<Notice>)
    requires Titled(ns)
    ensures |Plan(dir, ns)| == AttachmentCount(ns)
  {
    if ns != [] {
      TitledPrefix(ns[..|ns| - 1], ns);
      PlanCount(dir, ns[..|ns| - 1]);
    }
  }

  /** The download calls of one notice, as the crawl makes them. */
  lemma PlanOfNotice(dir: string, n: Notice)
    requires n.title.Some?
    ensures Plan(dir, [n]) == AttemptsIn(NoticeFolder(dir, n), n.attachments)
  {
    assert [n][..0] == [];
  }

  /** `f` is the folder of the `i`-th notice, which has an attachment. */
  predicate FolderOf(dir: string, ns: seq<Notice>, i: int, f: string) {
    0 <= i < |ns| && ns[i].attachments != [] && ns[i].title.Some? && f == NoticeFolder(dir, ns[i])
  }

  /** A folder is created exactly for the notices that have an attachment. */
  lemma FoldersSpec(dir: string, ns: seq<Notice>, f: string)
    requires Titled(ns)
    ensures f in Folders(dir, ns) <==> exists i :: FolderOf(dir, ns, i, f)
  {
    FoldersSound(dir, ns, f);
    forall i | FolderOf(dir, ns, i, f) ensures f in Folders(dir, ns) {
      FoldersComplete(dir, ns, i, f);
    }
  }

  lemma {:induction false} FoldersSound(dir: string, ns: seq<Notice>, f: string)
    requires Titled(ns)
    ensures f in Folders(dir, ns) ==> exists i :: FolderOf(dir, ns, i, f)
  {
    if ns != [] && f in Folders(dir, ns) {
      var init := ns[..|ns| - 1];
      var last := |ns| - 1;
      TitledPrefix(init, ns);
      if f in Folders(dir, init) {
        FoldersSound(dir, init, f);
        var i :| FolderOf(dir, init, i, f);
        assert ns[i] == init[i];
        assert FolderOf(dir, ns, i, f);
      } else {
        assert FolderOf(dir, ns, last, f);
      }
    }
  }

  lemma {:induction false} FoldersComplete(dir: string, ns: seq<Notice>, i: int, f: string)
    requires Titled(ns) && FolderOf(dir, ns, i, f)
    ensures f in Folders(dir, ns)
  {
    var init := ns[..|ns| - 1];
    FoldersSnoc(dir, ns);
    if i < |init| {
      assert init[i] == ns[i];
      FoldersComplete(dir, init, i, f);
      assert f in Folders(dir, init);
    } else {
      assert i == |ns| - 1;
    }
  }

  /** The folders of a list are those of all but its last notice, and the last notice's folder
      when it has an attachment. */
  lemma FoldersSnoc(dir: string, ns: seq<Notice>)
    requires Titled(ns) && ns != []
    ensures Titled(ns[..|ns| - 1])
    ensures Folders(dir, ns[..|ns| - 1]) <= Folders(dir, ns)
    ensures ns[|ns| - 1].attachments != [] ==> NoticeFolder(dir, ns[|ns| - 1]) in Folders(dir, ns)
  {
    TitledPrefix(ns[..|ns| - 1], ns);
  }

  /** The title part of a folder name: at most 50 characters, position by position the title's
      with each illegal character replaced by '_'. */
  lemma NoticeFolderSpec(dir: string, n: Notice)
    requires n.title.Some?
    ensures var t := SliceTo(ReplaceIllegal(n.title.value), 50);
      && NoticeFolder(dir, n) == PathJoin(dir, n.number + "_" + t)
      && |t| == (if |n.title.value| < 50 then |n.title.value| else 50)
      && (forall i :: 0 <= i < |t| ==> !IsIllegal(t[i]))
      && (forall i :: 0 <= i < |t| ==> t[i] == if IsIllegal(n.title.value[i]) then '_' else n.title.value[i])
  {
    var r := ReplaceIllegal(n.title.value);
    var t := SliceTo(r, 50);
    forall i | 0 <= i < |t| ensures t[i] == r[i] {
    }
  }
}
