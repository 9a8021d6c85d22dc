/**
 * What the backward walk of Nem_Api::get_transactions_since achieves against
 * nodes that serve an account's incoming transfers faithfully: the account's
 * history newest first, each page the first PageCap transfers older than the
 * cursor. Against such nodes the walk returns exactly the transfers newer than
 * the marker, in order, with |those| / PageCap + 1 lookups; and a run whose
 * marker is the newest id of an earlier run returns exactly what arrived since.
 */
module Reconciliation {
  import opened Wrappers
  import opened NemApi

  /** The transfers of `h` with an id below the cursor (all of them for no cursor). */
  function Below(h: seq<Txn>, cursor: Option<int>): (r: seq<Txn>)
    ensures |r| <= |h|
  {
    if h == [] then []
    else
      var rest := Below(h[1..], cursor);
      if cursor.Some? && h[0].id >= cursor.value then rest else [h[0]] + rest
  }

  /** The transfers of `s` with an id above the marker, in the order of `s`. */
  function Above(s: seq<Txn>, marker: int): (r: seq<Txn>)
    ensures |r| <= |s|
  {
    if s == [] then []
    else
      var rest := Above(s[1..], marker);
      if s[0].id > marker then [s[0]] + rest else rest
  }

  /** Below keeps exactly the transfers older than the cursor. */
  lemma {:induction false} BelowMembers(h: seq<Txn>, cursor: Option<int>)
    ensures forall t :: t in Below(h, cursor) <==> t in h && (cursor.Some? ==> t.id < cursor.value)
    decreases |h|
  {
    if h != [] {
      BelowMembers(h[1..], cursor);
      assert forall t :: t in h <==> t == h[0] || t in h[1..];
    }
  }

  /** Above keeps exactly the transfers newer than the marker. */
  lemma {:induction false} AboveMembers(s: seq<Txn>, marker: int)
    ensures forall t :: t in Above(s, marker) <==> t in s && t.id > marker
    decreases |s|
  {
    if s != [] {
      AboveMembers(s[1..], marker);
      assert forall t :: t in s <==> t == s[0] || t in s[1..];
    }
  }

  /** What a faithful node answers for a cursor: at most PageCap transfers older than it, newest first. */
  function HistoryData(h: seq<Txn>, cursor: Option<int>): (r: seq<Txn>)
    ensures |r| <= PageCap
    ensures forall t :: t in r ==> t in h && (cursor.Some? ==> t.id < cursor.value)
  {
    var b := Below(h, cursor);
    BelowMembers(h, cursor);
    if |b| <= PageCap then b else b[..PageCap]
  }

  /** The page the client reports for that answer: an empty `data` list is a failed lookup. */
  function HistoryPage(h: seq<Txn>, cursor: Option<int>): Option<seq<Txn>>
  {
    var d := HistoryData(h, cursor);
    if d == [] then None else Some(d)
  }

  /** A network of nodes that all answer 200 with the history's page, whatever the node or address. */
  function HistoryNet(h: seq<Txn>): Network
  {
    (req: Request) => Http(200, Object(Some(HistoryData(h, req.cursor))))
  }

  /** A page oracle that reports the history's pages. */
  ghost predicate Serves(look: PageOracle, h: seq<Txn>)
  {
    forall c :: look(c) == HistoryPage(h, c)
  }

  /** The client over faithful nodes reports the history's pages, whatever the node list (if not empty). */
  lemma HistoryNetServes(servers: seq<string>, h: seq<Txn>, address: string)
    requires servers != []
    ensures Serves(Pages(servers, HistoryNet(h), address), h)
  {
    forall c ensures Pages(servers, HistoryNet(h), address)(c) == HistoryPage(h, c) {
      var stripped := StripDashes(address);
      assert Answered(HistoryNet(h)(Request(servers[0], stripped, c)));
      assert FirstAnswering(servers, HistoryNet(h), stripped, c) == Some(0);
    }
  }

  /** Faithful pages honour the cursor, so the walk over them ends. */
  lemma ServesOlderThanCursor(look: PageOracle, h: seq<Txn>)
    requires Serves(look, h)
    ensures OlderThanCursor(look)
  {
    forall c ensures RespectsCursor(look(c), c) {
      var d := HistoryData(h, c);
      if look(c).Some? && c.Some? {
        forall i | 0 <= i < |d| ensures d[i].id < c.value {
          assert d[i] in d;
        }
      }
    }
  }

  /** In a newest-first history, the transfers below the id at j - 1 are those from j on. */
  lemma {:induction false} BelowSuffix(h: seq<Txn>, j: nat)
    requires Descending(h)
    requires j <= |h|
    ensures Below(h, if j == 0 then None else Some(h[j - 1].id)) == h[j..]
    decreases |h|
  {
    if h != [] {
      if j == 0 {
        BelowSuffix(h[1..], 0);
        assert h == [h[0]] + h[1..];
      } else {
        BelowSuffix(h[1..], j - 1);
        if j == 1 {
          assert Below(h[1..], Some(h[0].id)) == h[1..] by { BelowAtHead(h); }
        } else {
          assert h[1..][j - 2] == h[j - 1];
        }
      }
    }
  }

  /** In a newest-first history, everything after the head is below the head's id. */
  lemma {:induction false} BelowAtHead(h: seq<Txn>)
    requires Descending(h)
    requires h != []
    ensures Below(h[1..], Some(h[0].id)) == h[1..]
  {
    BelowAll(h[1..], h[0].id);
  }

  /** Nothing is dropped when every id is below the cursor. */
  lemma {:induction false} BelowAll(s: seq<Txn>, c: int)
    requires forall i :: 0 <= i < |s| ==> s[i].id < c
    ensures Below(s, Some(c)) == s
    decreases |s|
  {
    if s != [] {
      BelowAll(s[1..], c);
      assert s == [s[0]] + s[1..];
    }
  }

  /** Above distributes over concatenation. */
  lemma {:induction false} AboveAppend(a: seq<Txn>, b: seq<Txn>, marker: int)
    ensures Above(a + b, marker) == Above(a, marker) + Above(b, marker)
    decreases |a|
  {
    if a == [] {
      assert a + b == b;
    } else {
      AboveAppend(a[1..], b, marker);
      assert (a + b)[1..] == a[1..] + b;
      assert (a + b)[0] == a[0];
      if a[0].id > marker {
        assert [a[0]] + (Above(a[1..], marker) + Above(b, marker))
            == ([a[0]] + Above(a[1..], marker)) + Above(b, marker);
      }
    }
  }

  /** Nothing is dropped when every id is above the marker. */
  lemma {:induction false} AboveAll(s: seq<Txn>, marker: int)
    requires forall i :: 0 <= i < |s| ==> s[i].id > marker
    ensures Above(s, marker) == s
    decreases |s|
  {
    if s != [] {
      AboveAll(s[1..], marker);
      assert s == [s[0]] + s[1..];
    }
  }

  /** Everything is dropped when every id is at or below the marker. */
  lemma {:induction false} AboveNone(s: seq<Txn>, marker: int)
    requires forall i :: 0 <= i < |s| ==> s[i].id <= marker
    ensures Above(s, marker) == []
    decreases |s|
  {
    if s != [] {
      AboveNone(s[1..], marker);
    }
  }

  /** In a newest-first list, the transfers above the marker are the prefix before the first one at or below it. */
  lemma AboveIsPrefix(s: seq<Txn>, marker: int)
    requires Descending(s)
    ensures Above(s, marker) == s[..FirstAtOrBelow(s, marker)]
  {
    var k := FirstAtOrBelow(s, marker);
    var front, back := s[..k], s[k..];
    assert s == front + back;
    AboveAppend(front, back, marker);
    assert forall i :: 0 <= i < |front| ==> front[i].id > marker by {
      forall i | 0 <= i < |front| ensures front[i].id > marker {
        assert front[i] == s[i];
      }
    }
    AboveAll(front, marker);
    assert forall i :: 0 <= i < |back| ==> back[i].id <= marker by {
      forall i | 0 <= i < |back| ensures back[i].id <= marker {
        assert back[i] == s[k + i];
        if i > 0 {
          assert s[k].id > s[k + i].id;
        }
      }
    }
    AboveNone(back, marker);
  }

  /** FirstAtOrBelow of a list agrees with that of any prefix that contains its answer. */
  lemma FirstAtOrBelowPrefix(s: seq<Txn>, n: nat, marker: int)
    requires n <= |s|
    requires FirstAtOrBelow(s[..n], marker) < n
    ensures FirstAtOrBelow(s, marker) == FirstAtOrBelow(s[..n], marker)
  {
    var k := FirstAtOrBelow(s[..n], marker);
    var k' := FirstAtOrBelow(s, marker);
    assert s[..n][k] == s[k];
  }

  /** A leading page entirely above the marker is kept whole. */
  lemma AboveFullPage(s: seq<Txn>, marker: int)
    requires PageCap <= |s|
    requires FirstAtOrBelow(s[..PageCap], marker) == PageCap
    ensures Above(s, marker) == s[..PageCap] + Above(s[PageCap..], marker)
  {
    assert s == s[..PageCap] + s[PageCap..];
    AboveAppend(s[..PageCap], s[PageCap..], marker);
    AboveAll(s[..PageCap], marker);
  }

  /** The cursor the walk holds after the first j transfers of h: the id of the j-th. */
  function CursorAt(h: seq<Txn>, j: nat): Option<int>
    requires j <= |h|
  {
    if j == 0 then None else Some(h[j - 1].id)
  }

  /** Where the page requested at position j ends. */
  function PageEnd(h: seq<Txn>, j: nat): (e: nat)
    requires j <= |h|
    ensures j <= e <= |h| && e - j <= PageCap
    ensures e - j < PageCap ==> e == |h|
  {
    if |h| - j <= PageCap then |h| else j + PageCap
  }

  /** At position j, faithful nodes answer with the next PageCap transfers, or fail past the end. */
  lemma PageAt(look: PageOracle, h: seq<Txn>, j: nat)
    requires Serves(look, h)
    requires Descending(h)
    requires j <= |h|
    ensures j == |h| ==> look(CursorAt(h, j)).None?
    ensures j < |h| ==> look(CursorAt(h, j)) == Some(h[j..PageEnd(h, j)])
  {
    BelowSuffix(h, j);
    var b := h[j..];
    assert Below(h, CursorAt(h, j)) == b;
    if |b| <= PageCap {
      assert b == h[j..PageEnd(h, j)];
    } else {
      assert b[..PageCap] == h[j..PageEnd(h, j)];
    }
  }

  /** The pages faithful nodes answer at the cursors the walk can hold. */
  ghost predicate PagesAt(look: PageOracle, h: seq<Txn>)
  {
    forall j :: 0 <= j <= |h| ==>
      look(CursorAt(h, j)) == if j == |h| then None else Some(h[j..PageEnd(h, j)])
  }

  lemma ServesPagesAt(look: PageOracle, h: seq<Txn>)
    requires Serves(look, h)
    requires Descending(h)
    ensures PagesAt(look, h)
  {
    forall j | 0 <= j <= |h|
      ensures look(CursorAt(h, j)) == if j == |h| then None else Some(h[j..PageEnd(h, j)])
    {
      PageAt(look, h, j);
    }
  }

  /** A page cut at the marker: everything after the cut is at or below it too. */
  lemma AboveCutInPage(h: seq<Txn>, j: nat, marker: int)
    requires Descending(h)
    requires j < |h|
    requires FirstAtOrBelow(h[j..PageEnd(h, j)], marker) < PageEnd(h, j) - j
    ensures Above(h[j..], marker) == h[j..PageEnd(h, j)][..FirstAtOrBelow(h[j..PageEnd(h, j)], marker)]
  {
    var rest := h[j..];
    var n := PageEnd(h, j) - j;
    assert h[j..PageEnd(h, j)] == rest[..n];
    assert Descending(rest);
    AboveIsPrefix(rest, marker);
    FirstAtOrBelowPrefix(rest, n, marker);
  }

  /** A full page above the marker is kept whole and the walk goes on after it. */
  lemma AboveAfterFullPage(h: seq<Txn>, j: nat, marker: int)
    requires j + PageCap <= |h|
    requires FirstAtOrBelow(h[j..j + PageCap], marker) == PageCap
    ensures Above(h[j..], marker) == h[j..j + PageCap] + Above(h[j + PageCap..], marker)
  {
    var rest := h[j..];
    assert rest[..PageCap] == h[j..j + PageCap];
    assert rest[PageCap..] == h[j + PageCap..];
    AboveFullPage(rest, marker);
  }

  /** From the cursor at position j on, the walk over faithful pages returns the transfers of h[j..] above the marker. */
  lemma {:induction false} WalkFromPosition(look: PageOracle, h: seq<Txn>, marker: nat, j: nat)
    requires PagesAt(look, h) && OlderThanCursor(look)
    requires Descending(h)
    requires j <= |h|
    requires j > 0 ==> h[j - 1].id > marker
    ensures Walk(look, marker, CursorAt(h, j)) == Above(h[j..], marker)
    decreases |h| - j
  {
    assert look(CursorAt(h, j)) == if j == |h| then None else Some(h[j..PageEnd(h, j)]);
    if j == |h| {
      assert h[j..] == [];
    } else {
      var e := PageEnd(h, j);
      var page := h[j..e];
      var k := FirstAtOrBelow(page, marker);
      if k < |page| {
        AboveCutInPage(h, j, marker);
      } else if |page| == PageCap {
        assert page[PageCap - 1] == h[e - 1];
        WalkFromPosition(look, h, marker, e);
        AboveAfterFullPage(h, j, marker);
      } else {
        assert page == h[j..];
        AboveAll(page, marker);
      }
    }
  }

  /** From the cursor at position j on, the walk makes |transfers of h[j..] above the marker| / PageCap + 1 lookups. */
  lemma {:induction false} RequestsFromPosition(look: PageOracle, h: seq<Txn>, marker: nat, j: nat)
    requires PagesAt(look, h) && OlderThanCursor(look)
    requires Descending(h)
    requires j <= |h|
    requires j > 0 ==> h[j - 1].id > marker
    ensures |Requests(look, marker, CursorAt(h, j))| == |Above(h[j..], marker)| / PageCap + 1
    decreases |h| - j
  {
    assert look(CursorAt(h, j)) == if j == |h| then None else Some(h[j..PageEnd(h, j)]);
    if j == |h| {
      assert h[j..] == [];
    } else {
      var e := PageEnd(h, j);
      var page := h[j..e];
      var k := FirstAtOrBelow(page, marker);
      if k < |page| {
        AboveCutInPage(h, j, marker);
      } else if |page| == PageCap {
        assert page[PageCap - 1] == h[e - 1];
        RequestsFromPosition(look, h, marker, e);
        AboveAfterFullPage(h, j, marker);
      } else {
        assert page == h[j..];
        AboveAll(page, marker);
      }
    }
  }

  /**
   * Over faithful nodes the walk from no cursor returns exactly the transfers
   * newer than the marker, newest first: nothing newer is missed, nothing at or
   * below the marker is repeated. Its lookups number |those| / PageCap + 1, so
   * a count that is a multiple of PageCap costs one lookup that comes back empty.
   */
  lemma WalkReturnsAboveMarker(look: PageOracle, h: seq<Txn>, marker: nat)
    requires Serves(look, h)
    requires Descending(h)
    ensures OlderThanCursor(look)
    ensures Walk(look, marker, None) == Above(h, marker)
    ensures |Requests(look, marker, None)| == |Above(h, marker)| / PageCap + 1
  {
    ServesOlderThanCursor(look, h);
    ServesPagesAt(look, h);
    WalkFromPosition(look, h, marker, 0);
    RequestsFromPosition(look, h, marker, 0);
  }

  /**
   * The client's walk over faithful nodes (any non-empty node list): what
   * get_transactions_since returns against them.
   */
  lemma ClientWalkReturnsAboveMarker(servers: seq<string>, h: seq<Txn>, address: string, marker: Option<int>)
    requires servers != []
    requires Descending(h)
    ensures OlderThanCursor(Pages(servers, HistoryNet(h), address))
    ensures Walk(Pages(servers, HistoryNet(h), address), AbsInt(marker), None) == Above(h, AbsInt(marker))
    ensures |Requests(Pages(servers, HistoryNet(h), address), AbsInt(marker), None)|
            == |Above(h, AbsInt(marker))| / PageCap + 1
  {
    HistoryNetServes(servers, h, address);
    WalkReturnsAboveMarker(Pages(servers, HistoryNet(h), address), h, AbsInt(marker));
  }

  /** With no stored marker (PHP `false`) and positive ids, the first run returns the whole history. */
  lemma FirstRunReturnsAll(look: PageOracle, h: seq<Txn>)
    requires Serves(look, h)
    requires Descending(h)
    requires forall i :: 0 <= i < |h| ==> h[i].id > 0
    ensures OlderThanCursor(look)
    ensures Walk(look, AbsInt(None), None) == h
  {
    WalkReturnsAboveMarker(look, h, 0);
    AboveAll(h, 0);
  }

  /**
   * After a run that saw history h and stored the id of its newest transfer,
   * the next run, once the transfers `incoming` have arrived, returns exactly them.
   */
  lemma NextRunReturnsOnlyNew(look: PageOracle, incoming: seq<Txn>, h: seq<Txn>)
    requires h != [] && h[0].id >= 0
    requires Serves(look, incoming + h)
    requires Descending(incoming + h)
    ensures OlderThanCursor(look)
    ensures Walk(look, AbsInt(Some(h[0].id)), None) == incoming
  {
    var marker := h[0].id;
    WalkReturnsAboveMarker(look, incoming + h, marker);
    AboveAppend(incoming, h, marker);
    forall i | 0 <= i < |incoming| ensures incoming[i].id > marker {
      assert (incoming + h)[i] == incoming[i];
      assert (incoming + h)[|incoming|] == h[0];
    }
    AboveAll(incoming, marker);
    forall i | 0 <= i < |h| ensures h[i].id <= marker {
      if i > 0 {
        assert (incoming + h)[|incoming|] == h[0];
        assert (incoming + h)[|incoming| + i] == h[i];
      }
    }
    AboveNone(h, marker);
  }

  /**
   * A lookup that fails after a full page loses transfers for good: the run
   * returns just that page, the marker moves to its newest id once the mail
   * goes out, and a transfer above the old marker but older than the page was
   * in neither this run nor any later one.
   */
  lemma FailedLookupLosesOlder(look: PageOracle, later: PageOracle, marker: nat, page: seq<Txn>, t: Txn)
    requires OlderThanCursor(look) && OlderThanCursor(later)
    requires look(None) == Some(page) && |page| == PageCap && Descending(page)
    requires forall i :: 0 <= i < |page| ==> page[i].id > marker
    requires look(Some(page[PageCap - 1].id)).None?
    requires marker < t.id < page[PageCap - 1].id
    ensures Walk(look, marker, None) == page
    ensures t !in Walk(look, marker, None)
    ensures t !in Walk(later, AbsInt(Some(page[0].id)), None)
  {
    WalkFailSoft(look, marker, None, page);
    assert t !in page by {
      forall i | 0 <= i < |page| ensures page[i].id > t.id {
        if i < PageCap - 1 {
          assert page[i].id > page[PageCap - 1].id;
        }
      }
    }
    WalkBounds(later, AbsInt(Some(page[0].id)), None);
  }
}
