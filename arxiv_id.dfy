/** Deriving an arXiv identifier from the link the user typed (`getLinkResult`,
    script.js:29-41). */
module ArxivId {
  import opened Wrappers
  import opened JsString

  /** `url_split[url_split.length - 1]` with `url_split = url.split("/")`: the part of the
      link after its last `/`, unchanged. */
  function LastSegment(url: string): (seg: string)
    ensures IsLastPart(url, seg, '/')
  {
    var parts := Split(url, '/');
    LastPartOfSplit(url, '/');
    parts[|parts| - 1]
  }

  /** The shape an identifier must have to be sent to arXiv: non-empty, and
      `id.split(".")` gives exactly two parts, i.e. exactly one `.`. */
  predicate WellFormed(id: string)
    ensures WellFormed(id) <==> id != "" && |Split(id, '.')| == 2
  {
    id != "" && Count(id, '.') == 1
  }

  /** The identifier `getLinkResult` fetches for `url`, or None where it alerts and returns.
      The `.pdf` branch (script.js:35-36) calls `replace` and throws its result away, so it
      leaves the segment as it is and is not modelled further. */
  function DeriveId(url: string): (r: Option<string>)
    ensures r.Some? ==> WellFormed(r.value) && IsLastPart(url, r.value, '/')
    ensures r.None? ==> !WellFormed(LastSegment(url))
    ensures (url == [] || url[|url| - 1] == '/') ==> r.None?
  {
    var finalId := LastSegment(url);
    if finalId == "" || |Split(finalId, '.')| != 2 then None else Some(finalId)
  }

  /** Both directions: `t` is derived from `url` exactly when `t` is well formed and is the
      part of `url` after its last `/`. */
  lemma DeriveIdCharacterization(url: string, t: string)
    ensures DeriveId(url) == Some(t) <==> WellFormed(t) && IsLastPart(url, t, '/')
  {
    if WellFormed(t) && IsLastPart(url, t, '/') {
      LastPartUnique(url, t, LastSegment(url), '/');
    }
  }

  /** Whatever precedes it, a well-formed last segment is accepted as it stands. */
  lemma AbsLinkAccepted(prefix: string, id: string)
    requires '/' !in id && WellFormed(id)
    ensures DeriveId(prefix + "/" + id) == Some(id)
  {
    var url := prefix + "/" + id;
    assert url[|url| - |id|..] == id;
    assert |id| < |url| && url[|url| - |id| - 1] == '/';
    DeriveIdCharacterization(url, id);
  }

  /** Whatever precedes it, a `/`-free last segment that is not well formed is rejected. */
  lemma RejectedSegment(prefix: string, seg: string)
    requires '/' !in seg && !WellFormed(seg)
    ensures DeriveId(prefix + "/" + seg) == None
  {
    var url := prefix + "/" + seg;
    assert url[|url| - |seg|..] == seg;
    assert |seg| < |url| && url[|url| - |seg| - 1] == '/';
    LastPartUnique(url, seg, LastSegment(url), '/');
  }

  /** A link to a PDF is rejected: its last segment keeps its `.pdf` (the stripped value is
      discarded), so a segment that already holds a `.` splits into three or more parts. */
  lemma PdfLinkRejected(prefix: string, id: string)
    requires '/' !in id && '.' in id
    ensures DeriveId(prefix + "/" + id + ".pdf") == None
  {
    var seg := id + ".pdf";
    assert prefix + "/" + id + ".pdf" == prefix + "/" + seg;
    CountConcat(id, ".pdf", '.');
    CountAbsent(id, '.');
    CountConcat(".", "pdf", '.');
    CountAbsent("pdf", '.');
    assert ".pdf" == "." + "pdf";
    RejectedSegment(prefix, seg);
  }

  /** `id` with exactly one `.`, built from two dot-free halves. */
  lemma DottedIdWellFormed(a: string, b: string)
    requires '.' !in a && '.' !in b
    ensures WellFormed(a + "." + b)
  {
    CountConcat(a + ".", b, '.');
    CountConcat(a, ".", '.');
    CountAbsent(a, '.');
    CountAbsent(b, '.');
  }

  lemma ExampleAbsLink()
    ensures DeriveId("https://arxiv.org/abs/2301.04567") == Some("2301.04567")
  {
    var prefix, a, b := "https://arxiv.org/abs", "2301", "04567";
    DottedIdWellFormed(a, b);
    AbsLinkAccepted(prefix, a + "." + b);
    assert prefix + "/" + (a + "." + b) == "https://arxiv.org/abs/2301.04567";
    assert a + "." + b == "2301.04567";
  }

  lemma ExamplePdfLink()
    ensures DeriveId("https://arxiv.org/pdf/2301.04567.pdf") == None
  {
    var prefix, id := "https://arxiv.org/pdf", "2301.04567";
    PdfLinkRejected(prefix, id);
    assert prefix + "/" + id + ".pdf" == "https://arxiv.org/pdf/2301.04567.pdf";
  }

  lemma ExampleNotAPaper()
    ensures DeriveId("https://example.com/not-a-paper") == None
  {
    var prefix, seg := "https://example.com", "not-a-paper";
    CountAbsent(seg, '.');
    RejectedSegment(prefix, seg);
    assert prefix + "/" + seg == "https://example.com/not-a-paper";
  }
}
