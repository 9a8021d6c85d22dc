/**
 * The NIS node client of the plugin (class Nem_Api): choice of the node list,
 * the request for one page of incoming transfers with failover from node to
 * node, the backward walk through those pages down to the stored marker, and
 * the accessors for the fields of a transaction.
 *
 * The network is a total function from request to response. A request is
 * the node, the address as it appears in the query and the cursor; Url
 * renders it. Distinct non-negative cursors (NIS ids are never negative)
 * render to distinct URLs for the same node and address, so keying the
 * network on requests rather than URL strings loses nothing there.
 */
module NemApi {
  import opened Wrappers

  /** Unix time of the NEM genesis block; NIS time stamps count seconds from it. */
  const NemEpoch: int := 1427587585
  /** Micro-units in one XEM. */
  const MicroPerXem: real := 1000000.0
  /** Most transactions the incoming-transfers endpoint returns in one page. */
  const PageCap: nat := 25
  /** Port and endpoint appended to a node's host name, up to the address. */
  const TransfersPath: string := ":7890/account/transfers/incoming?address="

  const MainnetServers: seq<string> := ["bigalice3.nem.ninja", "alice2.nem.ninja", "go.nem.ninja"]
  const TestnetServers: seq<string> := ["bob.nem.ninja", "104.128.226.60", "192.3.61.243"]

  /** The fields of a transfer the plugin reads: meta->id, transaction->timeStamp, transaction->amount. */
  datatype Txn = Txn(id: int, timeStamp: int, amount: int)

  /** The constructor's argument: a network name or an explicit list of nodes. */
  datatype ServerArg = Named(name: string) | Listed(servers: seq<string>)

  /**
   * A response body after JSON decoding: anything that is not a JSON object
   * (invalid JSON, an array, a scalar), or an object whose `data` is None when
   * it has no such field.
   */
  datatype Body = NotAnObject | Object(data: Option<seq<Txn>>)

  /** What a node answered: no HTTP response at all, or a status and a decoded body. */
  datatype Response = TransportError | Http(status: int, body: Body)

  /** A GET for one page: the node, the address without dashes, and the cursor. */
  datatype Request = Request(server: string, address: string, cursor: Option<int>)

  /** The network: what a node answers to a request. */
  type Network = Request -> Response

  /** A page oracle: the page of transfers older than a cursor, or None for a failed lookup. */
  type PageOracle = Option<int> -> Option<seq<Txn>>

  // ---------------------------------------------------------------------------
  // Node selection

  /** The node list the constructor settles on. */
  function ServerList(arg: ServerArg): (r: seq<string>)
    ensures r != []
    ensures arg.Listed? && arg.servers != [] ==> r == arg.servers
    ensures arg == Named("mainnet") ==> r == MainnetServers
    ensures !(arg.Listed? && arg.servers != []) && arg != Named("mainnet") ==> r == TestnetServers
  {
    if arg.Listed? && arg.servers != [] then arg.servers
    else if arg != Named("mainnet") then TestnetServers
    else MainnetServers
  }

  // ---------------------------------------------------------------------------
  // Building the request

  /** The address with every dash removed, as str_replace('-', '', ...) leaves it. */
  function StripDashes(s: string): (r: string)
    ensures '-' !in r
    ensures '-' !in s ==> r == s
  {
    if s == [] then []
    else
      assert s == [s[0]] + s[1..];
      (if s[0] == '-' then [] else [s[0]]) + StripDashes(s[1..])
  }

  /** Every character other than a dash is kept, as often as it occurs. */
  lemma {:induction false} StripDashesKeepsOthers(s: string)
    ensures forall c :: c != '-' ==> multiset(StripDashes(s))[c] == multiset(s)[c]
  {
    if s != [] {
      StripDashesKeepsOthers(s[1..]);
      assert s == [s[0]] + s[1..];
      var head := if s[0] == '-' then [] else [s[0]];
      assert multiset(StripDashes(s)) == multiset(head) + multiset(StripDashes(s[1..]));
    }
  }

  /** Stripping works character by character: a dash goes, anything else stays. */
  lemma StripDashesChar(c: char)
    ensures StripDashes([c]) == if c == '-' then [] else [c]
  {
    assert [c][1..] == [];
  }

  /** Stripping a concatenation strips each part and keeps them in order. */
  lemma {:induction false} StripDashesAppend(a: string, b: string)
    ensures StripDashes(a + b) == StripDashes(a) + StripDashes(b)
    decreases |a|
  {
    if a == [] {
      assert a + b == b;
    } else {
      var head := if a[0] == '-' then [] else [a[0]];
      calc {
        StripDashes(a + b);
      == { assert (a + b)[0] == a[0]; assert (a + b)[1..] == a[1..] + b; }
        head + StripDashes(a[1..] + b);
      == { StripDashesAppend(a[1..], b); }
        head + (StripDashes(a[1..]) + StripDashes(b));
      ==
        (head + StripDashes(a[1..])) + StripDashes(b);
      }
    }
  }

  function DigitChar(d: nat): (c: char)
    requires d < 10
  {
    "0123456789"[d]
  }

  predicate IsDigit(c: char) { '0' <= c <= '9' }

  function DigitValue(c: char): (d: nat)
    requires IsDigit(c)
  {
    c as int - '0' as int
  }

  /** Decimal rendering of a natural number, most significant digit first. */
  function NatToString(n: nat): (r: string)
    ensures r != []
    ensures forall i :: 0 <= i < |r| ==> IsDigit(r[i])
  {
    if n < 10 then [DigitChar(n)] else NatToString(n / 10) + [DigitChar(n % 10)]
  }

  /** How PHP writes an integer into a string. */
  function IntToString(n: int): string
  {
    if n < 0 then "-" + NatToString(-n) else NatToString(n)
  }

  /** Reads a string of decimal digits back; the inverse of NatToString. */
  function ParseNat(s: string): nat
    requires forall i :: 0 <= i < |s| ==> IsDigit(s[i])
  {
    if s == [] then 0 else 10 * ParseNat(s[..|s| - 1]) + DigitValue(s[|s| - 1])
  }

  lemma {:induction false} ParseNatToString(n: nat)
    ensures ParseNat(NatToString(n)) == n
  {
    var r := NatToString(n);
    if n < 10 {
      assert r == [DigitChar(n)];
      assert r[..0] == [];
    } else {
      ParseNatToString(n / 10);
      assert r[..|r| - 1] == NatToString(n / 10);
    }
  }

  /** The `id` query argument; add_query_arg adds nothing for a `false` cursor. */
  function CursorArg(cursor: Option<int>): (r: string)
    ensures r == [] <==> cursor.None?
    ensures cursor.Some? ==> |r| > 4 && r[..4] == "&id=" && r[4..] == IntToString(cursor.value)
  {
    match cursor
    case None => ""
    case Some(id) => "&id=" + IntToString(id)
  }

  /** The path lookup_transactions builds after the node's host name. */
  function RequestPath(address: string, cursor: Option<int>): (r: string)
    ensures var n, a := |TransfersPath|, StripDashes(address);
      && |r| == n + |a| + |CursorArg(cursor)|
      && r[..n] == TransfersPath && r[n..n + |a|] == a && r[n + |a|..] == CursorArg(cursor)
  {
    TransfersPath + StripDashes(address) + CursorArg(cursor)
  }

  /** The request lookup_transactions sends to one node. */
  function RequestFor(server: string, address: string, cursor: Option<int>): Request
  {
    Request(server, StripDashes(address), cursor)
  }

  /** The URL of a request. */
  function Url(req: Request): (r: string)
    ensures var n, path := 7 + |req.server|, TransfersPath + req.address + CursorArg(req.cursor);
      && |r| == n + |path|
      && r[..7] == "http://" && r[7..n] == req.server && r[n..] == path
  {
    var path := TransfersPath + req.address + CursorArg(req.cursor);
    "http://" + req.server + path
  }

  /** The URL of the request for a node is the node's host name followed by the request path. */
  lemma UrlOfRequest(server: string, address: string, cursor: Option<int>)
    ensures Url(RequestFor(server, address, cursor)) == "http://" + server + RequestPath(address, cursor)
  {
  }

  /** No dash reaches the request path when the cursor is a NIS id (never negative). */
  lemma RequestPathHasNoDash(address: string, cursor: Option<int>)
    requires cursor.Some? ==> cursor.value >= 0
    ensures '-' !in RequestPath(address, cursor)
  {
    var base := TransfersPath + StripDashes(address);
    forall i | 0 <= i < |TransfersPath| ensures TransfersPath[i] != '-' { }
    assert '-' !in base;
    if cursor.Some? {
      var digits := NatToString(cursor.value);
      assert RequestPath(address, cursor) == base + ("&id=" + digits);
    }
  }

  /** For one node and address, distinct non-negative cursors give distinct URLs. */
  lemma UrlInjective(server: string, address: string, c1: Option<int>, c2: Option<int>)
    requires c1.Some? ==> c1.value >= 0
    requires c2.Some? ==> c2.value >= 0
    requires Url(RequestFor(server, address, c1)) == Url(RequestFor(server, address, c2))
    ensures c1 == c2
  {
    var host := "http://" + server;
    UrlOfRequest(server, address, c1);
    UrlOfRequest(server, address, c2);
    assert RequestPath(address, c1) == Url(RequestFor(server, address, c1))[|host|..];
    assert RequestPath(address, c2) == Url(RequestFor(server, address, c2))[|host|..];
    RequestPathInjective(address, c1, c2);
  }

  /** Distinct non-negative cursors give distinct request paths: the cursor reaches the node intact. */
  lemma RequestPathInjective(address: string, c1: Option<int>, c2: Option<int>)
    requires c1.Some? ==> c1.value >= 0
    requires c2.Some? ==> c2.value >= 0
    requires RequestPath(address, c1) == RequestPath(address, c2)
    ensures c1 == c2
  {
    var base := TransfersPath + StripDashes(address);
    assert CursorArg(c1) == RequestPath(address, c1)[|base|..];
    assert CursorArg(c2) == RequestPath(address, c2)[|base|..];
    CursorArgInjective(c1, c2);
  }

  /** The `id` argument determines a non-negative cursor. */
  lemma CursorArgInjective(c1: Option<int>, c2: Option<int>)
    requires c1.Some? ==> c1.value >= 0
    requires c2.Some? ==> c2.value >= 0
    requires CursorArg(c1) == CursorArg(c2)
    ensures c1 == c2
  {
    if c1.Some? && c2.Some? {
      var s1, s2 := NatToString(c1.value), NatToString(c2.value);
      assert s1 == CursorArg(c1)[4..];
      assert s2 == CursorArg(c2)[4..];
      ParseNatToString(c1.value);
      ParseNatToString(c2.value);
    }
  }

  // ---------------------------------------------------------------------------
  // One page, with failover

  /** A node answered with HTTP 200. */
  predicate Answered(res: Response)
  {
    res.Http? && res.status == 200
  }

  /** The index of the first node in list order that answers the request with 200. */
  function FirstAnswering(servers: seq<string>, net: Network, address: string, cursor: Option<int>): (r: Option<nat>)
    ensures r.Some? ==> r.value < |servers| && Answered(net(Request(servers[r.value], address, cursor)))
    ensures r.Some? ==> forall j :: 0 <= j < r.value ==> !Answered(net(Request(servers[j], address, cursor)))
    ensures r.None? ==> forall j :: 0 <= j < |servers| ==> !Answered(net(Request(servers[j], address, cursor)))
  {
    if servers == [] then None
    else if Answered(net(Request(servers[0], address, cursor))) then Some(0)
    else
      match FirstAnswering(servers[1..], net, address, cursor)
      case None => None
      case Some(k) => Some(k + 1)
  }

  /**
   * When every HTTP answer carries status 200 (rest_ensure_response wraps any
   * reply that is not an error in a response whose status is 200), the client
   * moves on to the next node only after a transport error.
   */
  lemma FailoverOnlyOnTransportError(servers: seq<string>, net: Network, address: string, cursor: Option<int>)
    requires forall req :: net(req).Http? ==> net(req).status == 200
    ensures var r := FirstAnswering(servers, net, address, cursor);
      && (r.Some? <==> exists j :: 0 <= j < |servers| && net(Request(servers[j], address, cursor)).Http?)
      && (r.Some? ==> forall j :: 0 <= j < r.value ==> net(Request(servers[j], address, cursor)).TransportError?)
  {
    var r := FirstAnswering(servers, net, address, cursor);
    if r.Some? {
      assert net(Request(servers[r.value], address, cursor)).Http?;
    }
  }

  /** The `data` list of a decoded body, unless the body is no object or the list is missing or empty. */
  function DecodePage(body: Body): (r: Option<seq<Txn>>)
    ensures r.Some? <==> body.Object? && body.data.Some? && body.data.value != []
    ensures r.Some? ==> r.value == body.data.value
  {
    if body.Object? && body.data.Some? && body.data.value != [] then body.data else None
  }

  /** The page the client reports for a cursor: the decoded data of the first node answering 200. */
  function PageLookup(servers: seq<string>, net: Network, address: string, cursor: Option<int>)
    : (r: Option<seq<Txn>>)
    ensures r.Some? ==> r.value != []
    ensures r.Some? ==> exists k :: 0 <= k < |servers| && Answered(net(RequestFor(servers[k], address, cursor)))
    ensures servers == [] ==> r.None?
  {
    var stripped := StripDashes(address);
    match FirstAnswering(servers, net, stripped, cursor)
    case None => None
    case Some(k) => DecodePage(net(Request(servers[k], stripped, cursor)).body)
  }

  /**
   * Failover: the page is what the first node answering 200 sent, decoded;
   * the nodes after it are never consulted.
   */
  lemma PageLookupUsesFirstAnswer(servers: seq<string>, net: Network, address: string, cursor: Option<int>, k: nat)
    requires k < |servers|
    requires Answered(net(RequestFor(servers[k], address, cursor)))
    requires forall j :: 0 <= j < k ==> !Answered(net(RequestFor(servers[j], address, cursor)))
    ensures PageLookup(servers, net, address, cursor) == DecodePage(net(RequestFor(servers[k], address, cursor)).body)
  {
    var stripped := StripDashes(address);
    var first := FirstAnswering(servers, net, stripped, cursor);
    assert RequestFor(servers[k], address, cursor) == Request(servers[k], stripped, cursor);
  }

  /** A lookup fails when no node answers 200, whatever the others sent. */
  lemma PageLookupFailsWithoutAnswer(servers: seq<string>, net: Network, address: string, cursor: Option<int>)
    requires forall j :: 0 <= j < |servers| ==> !Answered(net(RequestFor(servers[j], address, cursor)))
    ensures PageLookup(servers, net, address, cursor).None?
  {
    var stripped := StripDashes(address);
    assert forall j :: 0 <= j < |servers| ==> RequestFor(servers[j], address, cursor) == Request(servers[j], stripped, cursor);
  }

  /** The client seen as a page oracle for a fixed node list and address. */
  function Pages(servers: seq<string>, net: Network, address: string): PageOracle
  {
    c => PageLookup(servers, net, address, c)
  }

  // ---------------------------------------------------------------------------
  // The backward walk

  /** absint() of the stored marker; PHP's `false` reads as 0. */
  function AbsInt(marker: Option<int>): (r: nat)
    ensures marker.None? ==> r == 0
    ensures marker.Some? ==> r == marker.value || r == -marker.value
  {
    match marker
    case None => 0
    case Some(x) => if x < 0 then -x else x
  }

  /** Every transaction of a page is older (has a smaller id) than the cursor it was requested with. */
  predicate RespectsCursor(page: Option<seq<Txn>>, cursor: Option<int>)
  {
    page.Some? && cursor.Some? ==> forall i :: 0 <= i < |page.value| ==> page.value[i].id < cursor.value
  }

  /**
   * The nodes honour the cursor. The walk ends only because of this: the
   * client has no cap on the number of pages it fetches.
   */
  ghost predicate OlderThanCursor(look: PageOracle)
  {
    forall c :: RespectsCursor(look(c), c)
  }

  /** Ids strictly decreasing: newest first. */
  predicate Descending(s: seq<Txn>)
  {
    forall i, j :: 0 <= i < j < |s| ==> s[i].id > s[j].id
  }

  /** The index of the first transaction at or below the marker, or the page length if none is. */
  function FirstAtOrBelow(page: seq<Txn>, marker: int): (k: nat)
    ensures k <= |page|
    ensures forall i :: 0 <= i < k ==> page[i].id > marker
    ensures k < |page| ==> page[k].id <= marker
  {
    if page == [] || page[0].id <= marker then 0 else 1 + FirstAtOrBelow(page[1..], marker)
  }

  /**
   * What the walk collects from `cursor` on: a failed lookup ends it; a page is
   * cut just before the first id at or below the marker, which ends it too;
   * a whole page of PageCap transactions continues from the id of its last one.
   */
  function Walk(look: PageOracle, marker: nat, cursor: Option<int>): (r: seq<Txn>)
    requires OlderThanCursor(look)
    requires cursor.Some? ==> cursor.value > marker
    ensures look(cursor).None? ==> r == []
    ensures look(cursor).Some? ==>
      var page := look(cursor).value; var k := FirstAtOrBelow(page, marker);
      |r| >= k && r[..k] == page[..k]
    decreases if cursor.None? then 1 else 0, if cursor.Some? then cursor.value else 0
  {
    match look(cursor)
    case None => []
    case Some(page) =>
      assert RespectsCursor(look(cursor), cursor);
      var k := FirstAtOrBelow(page, marker);
      if k < |page| then page[..k]
      else if |page| == PageCap then page + Walk(look, marker, Some(page[PageCap - 1].id))
      else page
  }

  /**
   * Every transaction the walk returns is above the marker (the marker is
   * exclusive) and older than the cursor it started from.
   */
  lemma {:induction false} WalkBounds(look: PageOracle, marker: nat, cursor: Option<int>)
    requires OlderThanCursor(look)
    requires cursor.Some? ==> cursor.value > marker
    ensures forall t :: t in Walk(look, marker, cursor) ==> t.id > marker
    ensures cursor.Some? ==> forall t :: t in Walk(look, marker, cursor) ==> t.id < cursor.value
    decreases if cursor.None? then 1 else 0, if cursor.Some? then cursor.value else 0
  {
    match look(cursor)
    case None =>
    case Some(page) =>
      assert RespectsCursor(look(cursor), cursor);
      var k := FirstAtOrBelow(page, marker);
      if k == |page| && |page| == PageCap {
        WalkBounds(look, marker, Some(page[PageCap - 1].id));
      }
  }

  /**
   * `next` is requested after `prev` only when the page at `prev` held exactly
   * PageCap transactions, all above the marker, and `next` is the id of its last one.
   */
  predicate FollowsFullPage(look: PageOracle, marker: nat, prev: Option<int>, next: Option<int>)
  {
    && look(prev).Some?
    && |look(prev).value| == PageCap
    && FirstAtOrBelow(look(prev).value, marker) == PageCap
    && next == Some(look(prev).value[PageCap - 1].id)
  }

  /**
   * The cursors the walk requests pages with, in order. Only the first is the
   * caller's; each later one is the id of the last transaction of the page before,
   * which held exactly PageCap transactions, all above the marker.
   */
  function Requests(look: PageOracle, marker: nat, cursor: Option<int>): (r: seq<Option<int>>)
    requires OlderThanCursor(look)
    requires cursor.Some? ==> cursor.value > marker
    ensures r != [] && r[0] == cursor
    decreases if cursor.None? then 1 else 0, if cursor.Some? then cursor.value else 0
  {
    match look(cursor)
    case None => [cursor]
    case Some(page) =>
      assert RespectsCursor(look(cursor), cursor);
      if FirstAtOrBelow(page, marker) == |page| && |page| == PageCap then
        [cursor] + Requests(look, marker, Some(page[PageCap - 1].id))
      else [cursor]
  }

  /** The first request uses the caller's cursor; each later one follows a full page. */
  lemma {:induction false} RequestsFollowFullPages(look: PageOracle, marker: nat, cursor: Option<int>)
    requires OlderThanCursor(look)
    requires cursor.Some? ==> cursor.value > marker
    ensures var r := Requests(look, marker, cursor);
      && r != [] && r[0] == cursor
      && forall i, j :: 0 <= i && j == i + 1 && j < |r| ==> FollowsFullPage(look, marker, r[i], r[j])
    decreases if cursor.None? then 1 else 0, if cursor.Some? then cursor.value else 0
  {
    match look(cursor)
    case None =>
    case Some(page) =>
      assert RespectsCursor(look(cursor), cursor);
      if FirstAtOrBelow(page, marker) == |page| && |page| == PageCap {
        var next := Some(page[PageCap - 1].id);
        RequestsFollowFullPages(look, marker, next);
        var rest := Requests(look, marker, next);
        var r := [cursor] + rest;
        assert r == Requests(look, marker, cursor);
        assert forall i :: 1 <= i < |r| ==> r[i] == rest[i - 1];
      }
  }

  /** The walk keeps the nodes' newest-first order. */
  lemma {:induction false} WalkNewestFirst(look: PageOracle, marker: nat, cursor: Option<int>)
    requires OlderThanCursor(look)
    requires forall c :: look(c).Some? ==> Descending(look(c).value)
    requires cursor.Some? ==> cursor.value > marker
    ensures Descending(Walk(look, marker, cursor))
    decreases if cursor.None? then 1 else 0, if cursor.Some? then cursor.value else 0
  {
    match look(cursor)
    case None =>
    case Some(page) =>
      assert RespectsCursor(look(cursor), cursor);
      var k := FirstAtOrBelow(page, marker);
      if k == |page| && |page| == PageCap {
        var next := Some(page[PageCap - 1].id);
        WalkNewestFirst(look, marker, next);
        WalkBounds(look, marker, next);
        var rest := Walk(look, marker, next);
        var r := page + rest;
        assert r == Walk(look, marker, cursor);
        forall i, j | 0 <= i < j < |r| ensures r[i].id > r[j].id {
          if j >= |page| && i < |page| {
            assert r[j] == rest[j - |page|];
            assert r[j] in rest;
            assert page[i].id >= page[PageCap - 1].id;
          }
        }
      }
  }

  /** A failed lookup after a full page returns that page: what was collected is kept. */
  lemma WalkFailSoft(look: PageOracle, marker: nat, cursor: Option<int>, page: seq<Txn>)
    requires OlderThanCursor(look)
    requires cursor.Some? ==> cursor.value > marker
    requires look(cursor) == Some(page) && |page| == PageCap
    requires forall i :: 0 <= i < |page| ==> page[i].id > marker
    requires look(Some(page[PageCap - 1].id)).None?
    ensures Walk(look, marker, cursor) == page
  {
    assert FirstAtOrBelow(page, marker) == |page|;
    assert page + [] == page;
  }

  /** At the first id at or below the marker the walk stops: that transaction and the rest are left out. */
  lemma WalkStopsAtMarker(look: PageOracle, marker: nat, cursor: Option<int>, page: seq<Txn>, k: nat)
    requires OlderThanCursor(look)
    requires cursor.Some? ==> cursor.value > marker
    requires look(cursor) == Some(page)
    requires k < |page| && page[k].id <= marker
    requires forall i :: 0 <= i < k ==> page[i].id > marker
    ensures Walk(look, marker, cursor) == page[..k]
    ensures |Requests(look, marker, cursor)| == 1
  {
    assert FirstAtOrBelow(page, marker) == k;
  }

  // ---------------------------------------------------------------------------
  // Accessors

  /** The transaction's id (get_transaction_id). */
  function TransactionId(t: Txn): (r: int)
    ensures r == t.id
  {
    t.id
  }

  /** Unix time of a transaction: NIS time stamps count from the genesis block. */
  function TransactionTime(t: Txn): (r: int)
    ensures r - NemEpoch == t.timeStamp
  {
    t.timeStamp + NemEpoch
  }

  /** Amount in XEM, from micro-units (exact; PHP produces a float here). */
  function TransactionAmount(t: Txn): (r: real)
    ensures r * MicroPerXem == t.amount as real
  {
    t.amount as real / MicroPerXem
  }

  // ---------------------------------------------------------------------------
  // The client object

  class Api {
    /** The nodes tried, in order. */
    var servers: seq<string>
    /** The transactions collected by the last walk. */
    var transactions: seq<Txn>

    constructor (arg: ServerArg)
      ensures servers == ServerList(arg)
      ensures transactions == []
    {
      servers := MainnetServers;
      transactions := [];
      if arg.Listed? && arg.servers != [] {
        servers := arg.servers;
      } else if arg != Named("mainnet") {
        servers := TestnetServers;
      }
    }

    /**
     * One page of incoming transfers older than the cursor: the nodes are asked
     * in order until one answers 200; its decoded `data` list is the page.
     */
    method LookupTransactions(address: string, cursor: Option<int>, net: Network)
      returns (r: Option<seq<Txn>>)
      ensures r == PageLookup(servers, net, address, cursor)
    {
      var res: Option<Response> := None;
      var i := 0;
      while i < |servers|
        invariant 0 <= i <= |servers|
        invariant forall j :: 0 <= j < i ==> !Answered(net(RequestFor(servers[j], address, cursor)))
        invariant res.Some? ==> !Answered(res.value)
      {
        res := Some(net(RequestFor(servers[i], address, cursor)));
        if Answered(res.value) {
          break;
        }
        i := i + 1;
      }
      if res.None? || !Answered(res.value) {
        return None;
      }
      var body := res.value.body;
      if body.Object? && body.data.Some? && body.data.value != [] {
        r := body.data;
      } else {
        r := None;
      }
    }

    /**
     * The body of the walk's inner loop over one page: appends the page's
     * transactions to `transactions` up to, not including, the first one at or
     * below the marker, and reports where it stopped (the page length if it
     * never did).
     */
    method AppendAboveMarker(txns: seq<Txn>, id: int) returns (k: nat)
      modifies this`transactions
      ensures k == FirstAtOrBelow(txns, id)
      ensures transactions == old(transactions) + txns[..k]
    {
      var i := 0;
      while i < |txns|
        invariant 0 <= i <= |txns|
        invariant transactions == old(transactions) + txns[..i]
        invariant forall j :: 0 <= j < i ==> txns[j].id > id
      {
        if txns[i].id <= id {
          return i;
        }
        transactions := transactions + [txns[i]];
        i := i + 1;
      }
      return i;
    }

    /**
     * All transactions newer than the marker, newest first. The marker is
     * read through absint(), so PHP's `false` means "everything".
     */
    method GetTransactionsSince(address: string, marker: Option<int>, net: Network) returns (r: seq<Txn>)
      requires OlderThanCursor(Pages(servers, net, address))
      modifies this`transactions
      ensures r == transactions
      ensures r == Walk(Pages(servers, net, address), AbsInt(marker), None)
    {
      r := WalkBack(address, AbsInt(marker), net);
    }

    /**
     * The loop of get_transactions_since once the marker is a number. The
     * source's `$count == 25` test is decided inside FetchPage, which reports
     * `done` for a short page as it does for a failed lookup or the marker.
     */
    method WalkBack(address: string, id: nat, net: Network) returns (r: seq<Txn>)
      requires OlderThanCursor(Pages(servers, net, address))
      modifies this`transactions
      ensures r == transactions
      ensures r == Walk(Pages(servers, net, address), id, None)
    {
      ghost var total := Walk(Pages(servers, net, address), id, None);
      var cursor: Option<int> := None;
      var done := false;
      transactions := [];
      while !done
        invariant cursor.Some? ==> cursor.value > id
        invariant !done ==> transactions + Walk(Pages(servers, net, address), id, cursor) == total
        invariant done ==> transactions == total
        decreases if done then 0 else 1, if cursor.None? then 1 else 0, if cursor.Some? then cursor.value else 0
      {
        done, cursor := FetchPage(address, id, cursor, net);
      }
      r := transactions;
    }

    /**
     * One pass of the walk: look up the page older than `cursor` and append
     * what lies above the marker. Unless the walk is `done`, the next cursor
     * is the id of the page's last (oldest) transaction.
     */
    method FetchPage(address: string, id: nat, cursor: Option<int>, net: Network)
      returns (done: bool, next: Option<int>)
      requires OlderThanCursor(Pages(servers, net, address))
      requires cursor.Some? ==> cursor.value > id
      modifies this`transactions
      ensures done ==> next == cursor
      ensures done ==> transactions == old(transactions) + Walk(Pages(servers, net, address), id, cursor)
      ensures !done ==> next.Some? && next.value > id && (cursor.Some? ==> next.value < cursor.value)
      ensures !done ==> FollowsFullPage(Pages(servers, net, address), id, cursor, next)
      ensures !done ==> transactions + Walk(Pages(servers, net, address), id, next)
                        == old(transactions) + Walk(Pages(servers, net, address), id, cursor)
    {
      ghost var look := Pages(servers, net, address);
      var page := LookupTransactions(address, cursor, net);
      assert look(cursor) == page;
      if page.None? || page.value == [] {
        return true, cursor;
      }
      var txns := page.value;
      assert RespectsCursor(look(cursor), cursor);
      var k := AppendAboveMarker(txns, id);
      if k < |txns| || |txns| != PageCap {
        return true, cursor;
      }
      assert txns[..k] == txns;
      return false, Some(txns[|txns| - 1].id);
    }
  }
}
