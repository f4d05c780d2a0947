/**
 * ocr_utils.py: recognising an upload page by page and grouping the pages into
 * forms. The OCR service is a parameter: `gateway` gives the service's reply
 * to a request for the named image file, and `PostOcrImage` interprets that
 * reply as `_post_ocr_image` does. Rasterising a PDF is left out; only its page
 * count enters.
 */
module OcrUtils {
  import opened Wrappers
  import opened Text
  import opened Records

  /** `GROUP_SIZE`: pages per patient form. */
  const DefaultGroupSize: int := 4

  /** The fields of the service's JSON answer that `_post_ocr_image` reads
      (`ParsedResults[0].ParsedText` as `parsedText`); `j.get(...)` of an
      absent error field is `None`. */
  datatype OcrResponse = OcrResponse(
    isErroredOnProcessing: bool,
    errorMessage: Value,
    errorDetails: Value,
    parsedText: string)

  /** What a request comes back with: an HTTP-level failure, or a JSON answer. */
  datatype Reply = HttpFailure(reason: string) | Json(body: OcrResponse)

  /** `j.get("ErrorMessage") or j.get("ErrorDetails") or "OCR Error"` */
  function OcrErrorMessage(j: OcrResponse): (msg: string)
    ensures msg != ""
    ensures Truthy(j.errorMessage) ==> msg == j.errorMessage.s
    ensures !Truthy(j.errorMessage) && Truthy(j.errorDetails) ==> msg == j.errorDetails.s
    ensures !Truthy(j.errorMessage) && !Truthy(j.errorDetails) ==> msg == "OCR Error"
  {
    if Truthy(j.errorMessage) then j.errorMessage.s
    else if Truthy(j.errorDetails) then j.errorDetails.s
    else "OCR Error"
  }

  /** `_post_ocr_image` after the request: the recognised text, or the message of the exception it raises. */
  function PostOcrImage(reply: Reply): (r: Result<string, string>)
    ensures reply.HttpFailure? ==> r == Failure(reply.reason)
    ensures reply.Json? ==> (r.Failure? <==> reply.body.isErroredOnProcessing)
    ensures reply.Json? && r.Failure? ==> r.error == "OCR Error: " + OcrErrorMessage(reply.body)
    ensures reply.Json? && r.Success? ==> r.value == reply.body.parsedText
  {
    match reply
    case HttpFailure(reason) => Failure(reason)
    case Json(j) =>
      if j.isErroredOnProcessing then Failure("OCR Error: " + OcrErrorMessage(j)) else Success(j.parsedText)
  }

  /** f"page_{p}.png" */
  function PageFileName(p: nat): (name: string)
    ensures |name| == 9 + |NatToString(p)|
    ensures name[..5] == "page_" && name[5..|name| - 4] == NatToString(p) && name[|name| - 4..] == ".png"
    ensures forall k :: 5 <= k < |name| - 4 ==> IsAsciiDigit(name[k])
  {
    "page_" + NatToString(p) + ".png"
  }

  /** f"[ERROR on page {p}]: {e}" */
  function ErrorMarker(p: nat, e: string): (marker: string)
    ensures |marker| == 18 + |NatToString(p)| + |e|
    ensures marker[..15] == "[ERROR on page " && marker[15..15 + |NatToString(p)|] == NatToString(p)
    ensures marker[15 + |NatToString(p)|..18 + |NatToString(p)|] == "]: " && marker[|marker| - |e|..] == e
  {
    "[ERROR on page " + NatToString(p) + "]: " + e
  }

  /** Every page is requested under a name of its own. */
  lemma PageFileNameInjective(p: nat, q: nat)
    requires PageFileName(p) == PageFileName(q)
    ensures p == q
  {
    var a, b := PageFileName(p), PageFileName(q);
    assert NatToString(p) == a[5..|a| - 4] == b[5..|b| - 4] == NatToString(q);
    NatToStringInjective(p, q);
  }

  /** The text page `p` (1-based) contributes: its recognised text, or, when the request
      raises, the error marker that the `except` branch appends in its place. */
  function PageText(gateway: string -> Reply, p: nat): (t: string)
    ensures PostOcrImage(gateway(PageFileName(p))).Success? ==> t == PostOcrImage(gateway(PageFileName(p))).value
    ensures PostOcrImage(gateway(PageFileName(p))).Failure? ==> t == ErrorMarker(p, PostOcrImage(gateway(PageFileName(p))).error)
  {
    match PostOcrImage(gateway(PageFileName(p)))
    case Success(t) => t
    case Failure(e) => ErrorMarker(p, e)
  }

  /** The texts of pages 1..n, in page order. */
  function PageTexts(gateway: string -> Reply, n: nat): (texts: seq<string>)
    ensures |texts| == n
    ensures forall i :: 0 <= i < n ==> texts[i] == PageText(gateway, i + 1)
  {
    seq(n, i requires 0 <= i < n => PageText(gateway, i + 1))
  }

  /** The request names for pages 1..n, in page order. */
  function PageFileNames(n: nat): (names: seq<string>)
    ensures |names| == n
    ensures forall i :: 0 <= i < n ==> names[i] == PageFileName(i + 1)
  {
    seq(n, i requires 0 <= i < n => PageFileName(i + 1))
  }

  function Min(a: int, b: int): int
  {
    if a <= b then a else b
  }

  function CeilDiv(n: nat, g: nat): nat
    requires g >= 1
  {
    (n + g - 1) / g
  }

  /** Integer division is determined by the bounds it satisfies. */
  lemma DivUnique(x: nat, g: nat, q: nat)
    requires g >= 1 && q * g <= x < q * g + g
    ensures x / g == q
  {
    var d, m := x / g, x % g;
    assert x == d * g + m && 0 <= m < g;
    MulStrict(d, q + 1, g);
    MulStrict(q, d + 1, g);
  }

  lemma MulStrict(a: nat, b: nat, g: nat)
    requires a * g < b * g
    ensures a < b
  {
    if b <= a {
      MulMono(b, a, g);
    }
  }

  lemma MulMono(a: nat, b: nat, g: nat)
    requires a <= b
    ensures a * g <= b * g
  {
  }

  /** Consecutive groups of `g` items; the last one holds the remainder. */
  function Chunks<T>(s: seq<T>, g: nat): (groups: seq<seq<T>>)
    requires g >= 1
    ensures forall k :: 0 <= k < |groups| ==> 1 <= |groups[k]| <= g
    decreases |s|
  {
    if |s| == 0 then []
    else if |s| <= g then [s]
    else [s[..g]] + Chunks(s[g..], g)
  }

  /** There are ceil(n / g) groups; none for no items. */
  lemma {:induction false} ChunksCount<T>(s: seq<T>, g: nat)
    requires g >= 1
    ensures |Chunks(s, g)| == CeilDiv(|s|, g)
    decreases |s|
  {
    if |s| == 0 {
    } else if |s| <= g {
      CeilDivStep(|s|, g);
    } else {
      ChunksCount(s[g..], g);
      CeilDivStep(|s|, g);
    }
  }

  /** ceil(n / g) is 1 for 0 < n <= g, and one more than ceil((n - g) / g) beyond that. */
  lemma CeilDivStep(n: nat, g: nat)
    requires g >= 1 && n > 0
    ensures n <= g ==> CeilDiv(n, g) == 1
    ensures n > g ==> CeilDiv(n, g) == CeilDiv(n - g, g) + 1
  {
    if n <= g {
      DivUnique(n + g - 1, g, 1);
    } else {
      DivUnique(n + g - 1, g, CeilDiv(n - g, g) + 1);
    }
  }

  /** All groups, concatenated. */
  function Flatten<T>(groups: seq<seq<T>>): seq<T>
  {
    if groups == [] then [] else groups[0] + Flatten(groups[1..])
  }

  /** Concatenating the groups gives back the items, in order. */
  lemma {:induction false} ChunksFlatten<T>(s: seq<T>, g: nat)
    requires g >= 1
    ensures Flatten(Chunks(s, g)) == s
    decreases |s|
  {
    if |s| > g {
      ChunksFlatten(s[g..], g);
      assert s == s[..g] + s[g..];
    }
  }

  /** The groups of a suffix starting at item `i`: the group at `i`, then the groups of what follows it. */
  lemma ChunksFrom<T>(s: seq<T>, g: nat, i: nat)
    requires g >= 1 && i < |s|
    ensures Chunks(s[i..], g) == [s[i..Min(i + g, |s|)]] + Chunks(s[Min(i + g, |s|)..], g)
  {
    if |s| - i > g {
      assert s[i..][..g] == s[i..i + g];
      assert s[i..][g..] == s[i + g..];
    } else {
      assert s[i..] == s[i..|s|];
      assert s[|s|..] == [];
    }
  }

  /** One more group consumed: the groups already taken, the group at `i`, then the groups of the rest. */
  lemma ChunksStep<T>(s: seq<T>, g: nat, i: nat, done: seq<seq<T>>)
    requires g >= 1 && i < |s|
    requires Chunks(s, g) == done + Chunks(s[i..], g)
    ensures Chunks(s, g) == (done + [s[i..Min(i + g, |s|)]]) + Chunks(s[Min(i + g, |s|)..], g)
  {
    ChunksFrom(s, g, i);
  }

  /** Group `k` holds items k*g .. min((k+1)*g, n) - 1: the groups are contiguous and do not overlap. */
  lemma {:induction false} ChunkAt<T>(s: seq<T>, g: nat, k: nat)
    requires g >= 1 && k < |Chunks(s, g)|
    ensures k * g < |s|
    ensures Chunks(s, g)[k] == s[k * g..Min(k * g + g, |s|)]
    decreases |s|
  {
    if k > 0 {
      var lo := (k - 1) * g;
      assert lo + g == k * g;
      ChunkAt(s[g..], g, k - 1);
      SuffixSlice(s, g, lo, Min(lo + g, |s| - g));
    }
  }

  lemma SliceSnoc<T>(s: seq<T>, a: nat, b: nat)
    requires a < b <= |s|
    ensures s[a..b] == s[a..b - 1] + [s[b - 1]]
  {
  }

  lemma SliceConcat<T>(s: seq<T>, a: nat, b: nat)
    requires a <= b <= |s|
    ensures s[..a] + s[a..b] == s[..b]
  {
  }

  lemma SuffixSlice<T>(s: seq<T>, d: nat, a: nat, b: nat)
    requires d <= |s| && a <= b <= |s| - d
    ensures s[d..][a..b] == s[d + a..d + b]
  {
  }

  /** Every group has g items except the last, which has between 1 and g. */
  lemma {:induction false} ChunkSizes<T>(s: seq<T>, g: nat)
    requires g >= 1
    ensures forall k :: 0 <= k < |Chunks(s, g)| - 1 ==> |Chunks(s, g)[k]| == g
    ensures |Chunks(s, g)| > 0 ==> 1 <= |Chunks(s, g)[|Chunks(s, g)| - 1]| <= g
    decreases |s|
  {
    if |s| > g {
      ChunkSizes(s[g..], g);
      var rest := Chunks(s[g..], g);
      assert forall k :: 1 <= k < |Chunks(s, g)| ==> Chunks(s, g)[k] == rest[k - 1];
    }
  }

  /** The "\n\n"-joined text of every group. */
  function Merged(groups: seq<seq<string>>): (entries: seq<string>)
    ensures |entries| == |groups|
    ensures forall k :: 0 <= k < |groups| ==> entries[k] == Join("\n\n", groups[k])
  {
    seq(|groups|, k requires 0 <= k < |groups| => Join("\n\n", groups[k]))
  }

  /** Item `j` of form `k` is page k*g + j + 1, its text or its error marker. */
  lemma GroupedPageNumber(gateway: string -> Reply, n: nat, g: nat, k: nat, j: nat)
    requires g >= 1 && k < CeilDiv(n, g)
    ensures k < |Chunks(PageTexts(gateway, n), g)|
    ensures j < |Chunks(PageTexts(gateway, n), g)[k]| <==> k * g + j < n && j < g
    ensures j < |Chunks(PageTexts(gateway, n), g)[k]| ==>
              Chunks(PageTexts(gateway, n), g)[k][j] == PageText(gateway, k * g + j + 1)
  {
    var texts := PageTexts(gateway, n);
    ChunksCount(texts, g);
    ChunkAt(texts, g, k);
    var lo := k * g;
    var group := texts[lo..Min(lo + g, n)];
    assert |group| == Min(lo + g, n) - lo;
    if j < |group| {
      assert group[j] == texts[lo + j];
    }
  }

  /** Form `k` is built from its own pages only: a different outcome on any other page leaves it unchanged. */
  lemma FormDependsOnlyOnItsPages(gateway1: string -> Reply, gateway2: string -> Reply, n: nat, g: nat, k: nat)
    requires g >= 1 && k < CeilDiv(n, g)
    requires forall p :: k * g < p <= Min(k * g + g, n) ==> gateway1(PageFileName(p)) == gateway2(PageFileName(p))
    ensures k < |Chunks(PageTexts(gateway1, n), g)| && k < |Chunks(PageTexts(gateway2, n), g)|
    ensures Merged(Chunks(PageTexts(gateway1, n), g))[k] == Merged(Chunks(PageTexts(gateway2, n), g))[k]
  {
    var t1, t2 := PageTexts(gateway1, n), PageTexts(gateway2, n);
    ChunksCount(t1, g);
    ChunksCount(t2, g);
    ChunkAt(t1, g, k);
    ChunkAt(t2, g, k);
    assert t1[k * g..Min(k * g + g, n)] == t2[k * g..Min(k * g + g, n)] by {
      forall i | k * g <= i < Min(k * g + g, n) ensures t1[i] == t2[i] {
        assert gateway1(PageFileName(i + 1)) == gateway2(PageFileName(i + 1));
      }
    }
  }

  /** `getattr(uploaded_file, "name", "upload").lower()` */
  function UploadFileName(name: Option<string>): (fileName: string)
    ensures name.None? ==> fileName == "upload"
    ensures name.Some? ==> |fileName| == |name.value| && forall k :: 0 <= k < |fileName| ==> fileName[k] == Lower(name.value[k])
  {
    LowerAscii(match name case Some(n) => n case None => "upload")
  }

  /** `filename.endswith(".pdf")` */
  predicate IsPdfName(fileName: string)
    ensures IsPdfName(fileName) <==> exists stem :: fileName == stem + ".pdf"
  {
    assert |fileName| >= 4 ==> fileName == fileName[..|fileName| - 4] + fileName[|fileName| - 4..];
    |fileName| >= 4 && fileName[|fileName| - 4..] == ".pdf"
  }

  /** The extension test ignores ASCII case: "FORM.PDF" and "scan.Pdf" are PDFs. */
  lemma PdfExtensionIgnoresCase(name: string)
    ensures IsPdfName(UploadFileName(Some(name))) <==>
              |name| >= 4 && Lower(name[|name| - 4]) == '.' && Lower(name[|name| - 3]) == 'p'
              && Lower(name[|name| - 2]) == 'd' && Lower(name[|name| - 1]) == 'f'
  {
    var f := UploadFileName(Some(name));
    if |name| >= 4 {
      assert f[|f| - 4..] == [f[|f| - 4], f[|f| - 3], f[|f| - 2], f[|f| - 1]];
    }
  }

  /** The message of the ValueError `range(0, n, 0)` raises. */
  const ZeroStepError: string := "range() arg 3 must not be zero"

  /** `ocr_from_file_grouped` for an upload named `name` whose PDF has `pageCount` pages: the
      forms' merged texts (or the exception that escapes), and the file names OCR was asked for. */
  method OcrFromFileGrouped(name: Option<string>, pageCount: nat, gateway: string -> Reply, groupSize: int := DefaultGroupSize)
    returns (r: Result<seq<string>, string>, requests: seq<string>)
    ensures !IsPdfName(UploadFileName(name)) ==>
              requests == [UploadFileName(name)]
              && r == match PostOcrImage(gateway(UploadFileName(name)))
                      case Success(t) => Success([t])
                      case Failure(e) => Failure(e)
    ensures IsPdfName(UploadFileName(name)) && groupSize == 0 ==> r == Failure(ZeroStepError) && requests == []
    ensures IsPdfName(UploadFileName(name)) && groupSize < 0 ==> r == Success([]) && requests == []
    ensures IsPdfName(UploadFileName(name)) && groupSize > 0 ==>
              requests == PageFileNames(pageCount)
              && r == Success(Merged(Chunks(PageTexts(gateway, pageCount), groupSize)))
  {
    var fileName := UploadFileName(name);
    requests := [];
    if !IsPdfName(fileName) {
      requests := requests + [fileName];
      match PostOcrImage(gateway(fileName)) {
        case Success(t) => r := Success([t]);
        case Failure(e) => r := Failure(e);
      }
      return;
    }
    if groupSize == 0 {
      r := Failure(ZeroStepError);
      return;
    }
    if groupSize < 0 {
      r := Success([]);
      return;
    }
    var results;
    results, requests := OcrPagesGrouped(pageCount, gateway, groupSize);
    r := Success(results);
  }

  /** The inner loop of `ocr_from_file_grouped`: pages first+1 .. last of a PDF of
      `pageCount` pages, requested in order, each giving its text or its error marker. */
  method OcrPageRange(gateway: string -> Reply, pageCount: nat, first: nat, last: nat)
    returns (texts: seq<string>, requests: seq<string>)
    requires first <= last <= pageCount
    ensures texts == PageTexts(gateway, pageCount)[first..last]
    ensures requests == PageFileNames(pageCount)[first..last]
  {
    texts, requests := [], [];
    var j := 0;
    while j < last - first
      invariant 0 <= j <= last - first
      invariant texts == PageTexts(gateway, pageCount)[first..first + j]
      invariant requests == PageFileNames(pageCount)[first..first + j]
      decreases last - first - j
    {
      var page := first + j + 1;
      requests := requests + [PageFileName(page)];
      texts := texts + [PageText(gateway, page)];
      SliceSnoc(PageTexts(gateway, pageCount), first, page);
      SliceSnoc(PageFileNames(pageCount), first, page);
      j := j + 1;
    }
  }

  /** The grouping loop of `ocr_from_file_grouped` over a PDF of `pageCount` pages:
      every page is sent in order, a failed page becomes its error marker, and each
      group of `groupSize` pages becomes one "\n\n"-joined entry. */
  method OcrPagesGrouped(pageCount: nat, gateway: string -> Reply, groupSize: nat)
    returns (results: seq<string>, requests: seq<string>)
    requires groupSize >= 1
    ensures requests == PageFileNames(pageCount)
    ensures results == Merged(Chunks(PageTexts(gateway, pageCount), groupSize))
  {
    requests := [];
    ghost var texts := PageTexts(gateway, pageCount);
    ghost var names := PageFileNames(pageCount);
    ghost var done: seq<seq<string>> := [];
    results := [];
    var i := 0;
    while i < pageCount
      invariant 0 <= i
      invariant Chunks(texts, groupSize) == done + Chunks(texts[Min(i, pageCount)..], groupSize)
      invariant results == Merged(done)
      invariant requests == names[..Min(i, pageCount)]
      decreases pageCount - i
    {
      var end := Min(i + groupSize, pageCount);
      var chunkTexts, chunkRequests := OcrPageRange(gateway, pageCount, i, end);
      SliceConcat(names, i, end);
      requests := requests + chunkRequests;
      ChunksStep(texts, groupSize, i, done);
      done := done + [chunkTexts];
      results := results + [Join("\n\n", chunkTexts)];
      i := i + groupSize;
      assert Min(i, pageCount) == end;
    }
    assert texts[Min(i, pageCount)..] == [];
    assert names[..Min(i, pageCount)] == names;
  }
}
