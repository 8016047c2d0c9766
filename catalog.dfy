/** The in-memory catalog `global_data` (script.js:22), its persistence by `render`
    (script.js:92-98) and the operations that change it: the de-duplicating append at the end
    of `getLinkResult` (script.js:43-52) and `removePaper` (script.js:129-134). */
module Catalog {
  import opened Wrappers
  import opened JsString
  import opened ArxivId
  import opened Records

  /** `global_data.map(a => a.id)`. */
  function Ids(s: seq<Result>): (ids: seq<string>)
    ensures |ids| == |s|
    ensures forall i :: 0 <= i < |s| ==> ids[i] == s[i].id
  {
    if s == [] then [] else [s[0].id] + Ids(s[1..])
  }

  /** No two records share an identifier. */
  predicate UniqueIds(s: seq<Result>) {
    forall i, j :: 0 <= i < j < |s| ==> s[i].id != s[j].id
  }

  /** The catalog after `if (!global_data.map(a => a.id).includes(result.id))
      global_data.push(result)`. A failed fetch leaves `result` undefined, so reading
      `result.id` throws before anything is pushed. */
  function Added(s: seq<Result>, r: Option<Result>): (t: seq<Result>)
    ensures |s| <= |t| <= |s| + 1 && t[..|s|] == s
    ensures r.None? ==> t == s
    ensures r.Some? ==> r.value.id in Ids(t)
    ensures r.Some? ==> (t == s <==> r.value.id in Ids(s))
    ensures |t| == |s| + 1 ==> r.Some? && t[|s|] == r.value
  {
    match r
    case None => s
    case Some(x) => if x.id in Ids(s) then s else assert Ids(s + [x])[|s|] == x.id; s + [x]
  }

  /** `global_data.filter(val => val.id != paper_id)`. */
  function Without(s: seq<Result>, id: string): (t: seq<Result>)
    ensures forall x :: x in t <==> x in s && x.id != id
  {
    if s == [] then [] else (if s[0].id != id then [s[0]] else []) + Without(s[1..], id)
  }

  /** The startup load `JSON.parse(localStorage.getItem("data")) || []`: an absent slot
      gives the empty catalog. */
  function Loaded(slot: Option<seq<Result>>): (s: seq<Result>)
    ensures slot.None? ==> s == []
    ensures slot.Some? ==> s == slot.value
  {
    slot.GetOr([])
  }

  /** The `"data"` slot after `render`: the whole catalog when it is non-empty, otherwise
      untouched (the empty branch returns before `setItem`). */
  function Persisted(slot: Option<seq<Result>>, s: seq<Result>): (out: Option<seq<Result>>)
    ensures s != [] ==> Loaded(out) == s
    ensures s == [] ==> out == slot
  {
    if |s| == 0 then slot else Some(s)
  }

  /** arXiv's query endpoint, to which `getLinkResult` appends the identifier. */
  const ArxivQuery: string := "https://export.arxiv.org/api/query?id_list="

  /** The request `getLinkResult` sends for an identifier: the endpoint followed by the
      identifier as it stands, without escaping. */
  function QueryUrl(id: string): (q: string)
    ensures |q| == |ArxivQuery| + |id|
    ensures q[..|ArxivQuery|] == ArxivQuery && q[|ArxivQuery|..] == id
  {
    ArxivQuery + id
  }

  /** Different identifiers are sent as different requests. */
  lemma QueryUrlInjective(id: string, id': string)
    requires QueryUrl(id) == QueryUrl(id')
    ensures id == id'
  {
  }

  /** What `getLinkResult(url)` hands to the append: None when the link has no well-formed
      identifier (no request is made), when the request or parse fails (`fetch` answers
      None) or when the response has no feed; otherwise the record keyed by the derived
      identifier and carrying the typed link. */
  function LinkResult(url: string, fetch: string -> Option<Document>): (r: Option<Result>)
    ensures DeriveId(url).None? ==> r.None?
    ensures DeriveId(url).Some? ==>
      var response := fetch(QueryUrl(DeriveId(url).value));
      (r.None? <==> response.None? || response.value.feed.None?)
    ensures r.Some? ==> DeriveId(url) == Some(r.value.id) && r.value.link == url
    ensures r.Some? ==>
      var response := fetch(QueryUrl(r.value.id));
      response.Some? && response.value.feed.Some? && r.value.data == response.value.feed.value.entry
  {
    match DeriveId(url)
    case None => None
    case Some(id) =>
      match fetch(QueryUrl(id))
      case None => None
      case Some(doc) => FilterData(doc, url, id)
  }

  lemma {:induction false} IdsConcat(a: seq<Result>, b: seq<Result>)
    ensures Ids(a + b) == Ids(a) + Ids(b)
  {
    assert |Ids(a + b)| == |Ids(a) + Ids(b)|;
    forall i | 0 <= i < |a + b|
      ensures Ids(a + b)[i] == (Ids(a) + Ids(b))[i]
    {
      if i < |a| {
        assert Ids(a + b)[i] == (a + b)[i].id == a[i].id;
      } else {
        assert Ids(a + b)[i] == (a + b)[i].id == b[i - |a|].id;
      }
    }
  }

  /** Adding the same outcome twice is the same as adding it once. */
  lemma AddedIdempotent(s: seq<Result>, r: Option<Result>)
    ensures Added(Added(s, r), r) == Added(s, r)
  {
  }

  /** Adding keeps the identifiers pairwise distinct. */
  lemma AddedPreservesUniqueIds(s: seq<Result>, r: Option<Result>)
    requires UniqueIds(s)
    ensures UniqueIds(Added(s, r))
  {
    if r.Some? && r.value.id !in Ids(s) {
      var t := Added(s, r);
      forall i, j | 0 <= i < j < |t| ensures t[i].id != t[j].id {
        if j == |s| {
          assert t[i].id == Ids(s)[i];
        }
      }
    }
  }

  /** Removal keeps the records it does not drop in their order: it works piecewise. */
  lemma {:induction false} WithoutConcat(a: seq<Result>, b: seq<Result>, id: string)
    ensures Without(a + b, id) == Without(a, id) + Without(b, id)
  {
    if a == [] {
      assert a + b == b;
    } else {
      assert (a + b)[1..] == a[1..] + b;
      WithoutConcat(a[1..], b, id);
    }
  }

  /** Removing an identifier that is not there leaves the catalog exactly as it was. */
  lemma {:induction false} WithoutAbsent(s: seq<Result>, id: string)
    requires id !in Ids(s)
    ensures Without(s, id) == s
  {
    if s != [] {
      assert Ids(s)[0] == s[0].id;
      assert id !in Ids(s[1..]) by {
        IdsConcat([s[0]], s[1..]);
        assert [s[0]] + s[1..] == s;
      }
      WithoutAbsent(s[1..], id);
    }
  }

  /** Removing twice is the same as removing once. */
  lemma WithoutIdempotent(s: seq<Result>, id: string)
    ensures Without(Without(s, id), id) == Without(s, id)
  {
    var t := Without(s, id);
    assert id !in Ids(t);
    WithoutAbsent(t, id);
  }

  /** Removal keeps the identifiers pairwise distinct. */
  lemma {:induction false} WithoutPreservesUniqueIds(s: seq<Result>, id: string)
    requires UniqueIds(s)
    ensures UniqueIds(Without(s, id))
  {
    if s != [] {
      var rest := Without(s[1..], id);
      assert UniqueIds(s[1..]) by {
        forall i, j | 0 <= i < j < |s[1..]| ensures s[1..][i].id != s[1..][j].id {
          assert s[1..][i] == s[i + 1] && s[1..][j] == s[j + 1];
        }
      }
      WithoutPreservesUniqueIds(s[1..], id);
      if s[0].id != id {
        var t := Without(s, id);
        assert t == [s[0]] + rest;
        forall i, j | 0 <= i < j < |t| ensures t[i].id != t[j].id {
          if i == 0 {
            assert t[j] == rest[j - 1] && t[j] in s[1..];
            var k :| 0 <= k < |s[1..]| && s[1..][k] == t[j];
            assert s[k + 1] == t[j];
          } else {
            assert t[i] == rest[i - 1] && t[j] == rest[j - 1];
          }
        }
      }
    }
  }

  /** Removing a paper right after adding it (under a fresh identifier) restores the
      catalog. */
  lemma RemoveUndoesAdd(s: seq<Result>, x: Result)
    requires x.id !in Ids(s)
    ensures Without(Added(s, Some(x)), x.id) == s
  {
    WithoutConcat(s, [x], x.id);
    WithoutAbsent(s, x.id);
    assert Without([x], x.id) == [];
  }

  /** Once a link's paper is in the catalog, adding any link with the same identifier does
      nothing, whatever its fetch answers. */
  lemma SameIdNotAddedTwice(s: seq<Result>, url: string, fetch: string -> Option<Document>,
                            url': string, fetch': string -> Option<Document>)
    requires LinkResult(url, fetch).Some?
    requires DeriveId(url') == DeriveId(url)
    ensures Added(Added(s, LinkResult(url, fetch)), LinkResult(url', fetch'))
         == Added(s, LinkResult(url, fetch))
  {
  }

  /** Reading the slot back gives the catalog that was last persisted. */
  lemma LoadedPersisted(slot: Option<seq<Result>>, s: seq<Result>)
    requires s != []
    ensures Loaded(Persisted(slot, s)) == s
  {
  }

  /** The startup `render` leaves the slot exactly as it was found. */
  lemma PersistedLoaded(slot: Option<seq<Result>>)
    ensures Persisted(slot, Loaded(slot)) == slot
  {
  }

  /** Removing the only paper does not clear the slot, so after a reload the removed paper
      is back. */
  lemma RemovedLastPaperReturnsOnReload(x: Result)
    ensures Without([x], x.id) == []
    ensures Loaded(Persisted(Some([x]), Without([x], x.id))) == [x]
  {
    assert Without([x], x.id) == [];
  }

  /** The page's state: `global_data` and the `"data"` local-storage slot. */
  class PaperCatalog {
    var papers: seq<Result>
    var storage: Option<seq<Result>>

    /** Each operation that changes a non-empty catalog renders it, so the slot then holds
        it; only an emptied catalog can differ from the slot. */
    predicate Mirrored()
      reads this
    {
      papers != [] ==> storage == Some(papers)
    }

    /** Page load: `global_data` is read from the slot (script.js:22), then `render()` runs
        (script.js:136). */
    constructor (stored: Option<seq<Result>>)
      ensures papers == Loaded(stored)
      ensures storage == stored
      ensures Mirrored()
    {
      papers := Loaded(stored);
      storage := stored;
      new;
      Render();
      PersistedLoaded(stored);
    }

    /** `render()`: write the whole catalog to the slot unless it is empty. */
    method Render()
      modifies this
      ensures papers == old(papers)
      ensures storage == Persisted(old(storage), papers)
      ensures Mirrored()
    {
      if |papers| == 0 {
        return;
      }
      storage := Some(papers);
    }

    /** Script.js:51-52 with the awaited fetch outcome `r`: append and render unless the
        identifier is already catalogued. */
    method AddResult(r: Option<Result>)
      modifies this
      ensures papers == Added(old(papers), r)
      ensures storage == if papers == old(papers) then old(storage) else Some(papers)
      ensures UniqueIds(old(papers)) ==> UniqueIds(papers)
      ensures old(Mirrored()) ==> Mirrored()
    {
      if UniqueIds(papers) {
        AddedPreservesUniqueIds(papers, r);
      }
      match r {
        case None =>
        case Some(result) =>
          if result.id !in Ids(papers) {
            papers := papers + [result];
            Render();
          }
      }
    }

    /** `getLinkResult(url)` with the network replaced by `fetch`, which answers the query
        URL with a parsed document or None for any failure. Reports whether the user is
        alerted: exactly when nothing is added for a reason other than a duplicate. */
    method GetLinkResult(url: string, fetch: string -> Option<Document>) returns (alerted: bool)
      modifies this
      ensures alerted <==> LinkResult(url, fetch).None?
      ensures papers == Added(old(papers), LinkResult(url, fetch))
      ensures alerted ==> papers == old(papers) && storage == old(storage)
      ensures storage == if papers == old(papers) then old(storage) else Some(papers)
      ensures UniqueIds(old(papers)) ==> UniqueIds(papers)
      ensures old(Mirrored()) ==> Mirrored()
    {
      var finalId := DeriveId(url);
      if finalId.None? {
        return true;
      }
      var response := fetch(QueryUrl(finalId.value));
      var result := if response.Some? then FilterData(response.value, url, finalId.value) else None;
      alerted := result.None?;
      AddResult(result);
    }

    /** `removePaper(paper_id)`: drop every record with that identifier, then render. */
    method RemovePaper(id: string)
      modifies this
      ensures papers == Without(old(papers), id)
      ensures storage == Persisted(old(storage), papers)
      ensures UniqueIds(old(papers)) ==> UniqueIds(papers)
      ensures Mirrored()
    {
      if UniqueIds(papers) {
        WithoutPreservesUniqueIds(papers, id);
      }
      papers := Without(papers, id);
      Render();
    }
  }
}
