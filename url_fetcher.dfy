/** UrlFetcher's request logic around the HTTP exchange: request
    normalisation, the outgoing header list, the choice of evhtp method,
    what the per-fetch State does with the pooled connection and the task
    when the request cannot be issued or completes, and the text form of a
    Response.

    Header collections are std::multimap<string, string>: a sequence of
    (name, value) pairs kept in non-decreasing name order, a new pair
    going after the pairs with an equal name. */
module Fetcher {

  import opened Basics
  import opened Tasks
  import opened Urls
  import opened LibEvent
  import opened Pool
  import opened Streams

  // ---------------------------------------------------------------------
  // Header multimaps
  // ---------------------------------------------------------------------

  type Header = (string, string)

  predicate SortedByName(h: seq<Header>)
  {
    forall i, j :: 0 <= i < j < |h| ==> !StrLess(h[j].0, h[i].0)
  }

  type Headers = h: seq<Header> | SortedByName(h) witness []

  predicate HasHeader(h: seq<Header>, name: string)
  {
    exists i :: 0 <= i < |h| && h[i].0 == name
  }

  /** Where the multimap places a new pair: after every pair whose name
      is not greater. */
  function UpperBound(h: Headers, name: string): (p: nat)
    ensures p <= |h|
    ensures forall i :: 0 <= i < p ==> !StrLess(name, h[i].0)
    ensures p < |h| ==> StrLess(name, h[p].0)
    decreases |h|
  {
    if h == [] || StrLess(name, h[0].0) then 0 else 1 + UpperBound(h[1..], name)
  }

  /** std::multimap::insert: the new pair goes after every pair whose
      name is not greater and before the first greater one, and the old
      pairs keep their order. */
  function Insert(h: Headers, name: string, value: string): (r: Headers)
    ensures multiset(r) == multiset(h) + multiset{(name, value)}
    ensures |r| == |h| + 1
    ensures exists p :: PlacedAt(h, p, name, value, r)
  {
    var p := UpperBound(h, name);
    InsertAtSorted(h, p, name, value);
    assert h == h[..p] + h[p..];
    var r := h[..p] + [(name, value)] + h[p..];
    assert PlacedAt(h, p, name, value, r);
    r
  }

  /** `r` is `h` with (name, value) at position p, which is after every
      name that is not greater and before the first greater one. */
  predicate PlacedAt(h: seq<Header>, p: int, name: string, value: string, r: seq<Header>)
  {
    0 <= p <= |h| && r == h[..p] + [(name, value)] + h[p..]
    && (forall i :: 0 <= i < p ==> !StrLess(name, h[i].0))
    && (p < |h| ==> StrLess(name, h[p].0))
  }

  /** A pair placed after every name that is not greater and before the
      first greater one keeps the names in order. */
  lemma InsertAtSorted(h: Headers, p: nat, name: string, value: string)
    requires p <= |h|
    requires forall i :: 0 <= i < p ==> !StrLess(name, h[i].0)
    requires p < |h| ==> StrLess(name, h[p].0)
    ensures SortedByName(h[..p] + [(name, value)] + h[p..])
  {
    var r := h[..p] + [(name, value)] + h[p..];
    assert forall j :: p < j < |r| ==> r[j] == h[j - 1];
    assert forall i :: 0 <= i < p ==> r[i] == h[i];
    forall i, j | 0 <= i < j < |r|
      ensures !StrLess(r[j].0, r[i].0)
    {
      if i == p {
        NotBelowFirstGreater(h, p, j - 1, name);
      }
    }
  }

  /** Every name from the first greater one on is not below `name`. */
  lemma NotBelowFirstGreater(h: Headers, p: nat, k: nat, name: string)
    requires p <= k < |h| && StrLess(name, h[p].0)
    ensures !StrLess(h[k].0, name)
  {
    if k == p {
      StrLessIrreflexive(h[p].0);
    }
    NotBelowGreater(h[k].0, name, h[p].0);
  }

  /** If b < c and not a < c, then not a < b. */
  lemma NotBelowGreater(a: string, b: string, c: string)
    requires StrLess(b, c) && !StrLess(a, c)
    ensures !StrLess(a, b)
  {
    if StrLess(a, b) {
      StrLessTransitive(a, b, c);
    }
  }

  lemma InsertHasHeader(h: Headers, name: string, value: string, other: string)
    ensures HasHeader(Insert(h, name, value), other) <==> HasHeader(h, other) || other == name
  {
    var r := Insert(h, name, value);
    if HasHeader(h, other) {
      var i :| 0 <= i < |h| && h[i].0 == other;
      assert h[i] in multiset(r);
      var j :| 0 <= j < |r| && r[j] == h[i];
    }
    if other == name {
      assert (name, value) in multiset(r);
      var j :| 0 <= j < |r| && r[j] == (name, value);
    }
    if HasHeader(r, other) {
      var j :| 0 <= j < |r| && r[j].0 == other;
      assert r[j] in multiset(h) + multiset{(name, value)};
      if r[j] in multiset(h) {
        var i :| 0 <= i < |h| && h[i] == r[j];
      }
    }
  }

  /** Inserting a list of pairs one after the other. */
  function InsertAll(h: Headers, pairs: seq<Header>): (r: Headers)
    ensures multiset(r) == multiset(h) + multiset(pairs)
  {
    if pairs == [] then h
    else
      var last := pairs[|pairs| - 1];
      assert pairs == pairs[..|pairs| - 1] + [last];
      Insert(InsertAll(h, pairs[..|pairs| - 1]), last.0, last.1)
  }

  /** The pairs with a given name, in their order. */
  function WithName(h: seq<Header>, name: string): (r: seq<Header>)
    ensures |r| <= |h|
  {
    if h == [] then []
    else WithName(h[..|h| - 1], name) + (if h[|h| - 1].0 == name then [h[|h| - 1]] else [])
  }

  lemma {:induction false} WithNameAppend(a: seq<Header>, b: seq<Header>, name: string)
    ensures WithName(a + b, name) == WithName(a, name) + WithName(b, name)
    decreases |b|
  {
    if b == [] {
      assert a + b == a;
    } else {
      var b' := b[..|b| - 1];
      assert (a + b)[..|a + b| - 1] == a + b';
      WithNameAppend(a, b', name);
    }
  }

  /** No pair from the first greater name on carries `name`. */
  lemma NoneNamedAfter(h: Headers, p: nat, name: string)
    requires p <= |h| && (p < |h| ==> StrLess(name, h[p].0))
    ensures WithName(h[p..], name) == []
  {
    if p < |h| {
      StrLessIrreflexive(name);
    }
    NoneNamed(h[p..], name);
  }

  lemma {:induction false} NoneNamed(s: seq<Header>, name: string)
    requires forall i :: 0 <= i < |s| ==> s[i].0 != name
    ensures WithName(s, name) == []
    decreases |s|
  {
    if s != [] {
      NoneNamed(s[..|s| - 1], name);
    }
  }

  /** An insert puts the new pair after the pairs already there with the
      same name, and leaves the pairs of every other name as they were. */
  lemma InsertWithName(h: Headers, name: string, value: string, other: string)
    ensures WithName(Insert(h, name, value), other)
         == WithName(h, other) + (if other == name then [(name, value)] else [])
  {
    var r := Insert(h, name, value);
    var p :| PlacedAt(h, p, name, value, r);
    NoneNamedAfter(h, p, name);
    PlacedWithName(h, p, name, value, r, other);
  }

  lemma PlacedWithName(h: seq<Header>, p: nat, name: string, value: string, r: seq<Header>, other: string)
    requires p <= |h| && r == h[..p] + [(name, value)] + h[p..]
    requires WithName(h[p..], name) == []
    ensures WithName(r, other) == WithName(h, other) + (if other == name then [(name, value)] else [])
  {
    var x := (name, value);
    assert r == (h[..p] + [x]) + h[p..];
    WithNameSplit(h, p, x, other);
    var before, after := WithName(h[..p], other), WithName(h[p..], other);
    if other == name {
      assert before + [x] + after == (before + after) + [x];
    } else {
      assert before + [] + after == before + after;
    }
  }

  /** Splitting at `p` and putting `x` there: each side keeps its pairs. */
  lemma WithNameSplit(h: seq<Header>, p: nat, x: Header, other: string)
    requires p <= |h|
    ensures WithName((h[..p] + [x]) + h[p..], other)
         == WithName(h[..p], other) + (if x.0 == other then [x] else []) + WithName(h[p..], other)
    ensures WithName(h, other) == WithName(h[..p], other) + WithName(h[p..], other)
  {
    WithNameAppend(h[..p] + [x], h[p..], other);
    WithNameAppend(h[..p], [x], other);
    WithNameAppend(h[..p], h[p..], other);
    assert h[..p] + h[p..] == h;
    assert [x][..0] == [];
  }

  /** Inserting pairs one by one keeps the pairs of each name in arrival
      order. */
  lemma {:induction false} InsertAllWithName(pairs: seq<Header>, name: string)
    ensures WithName(InsertAll([], pairs), name) == WithName(pairs, name)
    decreases |pairs|
  {
    if pairs != [] {
      var last := pairs[|pairs| - 1];
      InsertAllWithName(pairs[..|pairs| - 1], name);
      InsertWithName(InsertAll([], pairs[..|pairs| - 1]), last.0, last.1, name);
    }
  }

  // ---------------------------------------------------------------------
  // Requests
  // ---------------------------------------------------------------------

  /** UrlFetcher::Verb */
  datatype Verb = GET | POST | PUT | DELETE

  /** libhtparse's htp_method. */
  datatype HtpMethod =
    | HtpGet | HtpHead | HtpPost | HtpPut | HtpDelete | HtpMkcol | HtpCopy | HtpMove
    | HtpOptions | HtpPropfind | HtpProppatch | HtpLock | HtpUnlock | HtpTrace
    | HtpConnect | HtpPatch | HtpUnknown

  /** VerbToCmdType: one of the four method codes UrlFetcher uses, the
      one the verb names. */
  function VerbToCmdType(verb: Verb): (m: HtpMethod)
    ensures m in {HtpGet, HtpPost, HtpPut, HtpDelete}
    ensures CmdTypeToVerb(m) == Some(verb)
  {
    match verb
    case GET => HtpGet
    case POST => HtpPost
    case PUT => HtpPut
    case DELETE => HtpDelete
  }

  /** The verb a method code stands for, if UrlFetcher has one for it. */
  function CmdTypeToVerb(m: HtpMethod): (r: Option<Verb>)
    ensures r.Some? <==> m in {HtpGet, HtpPost, HtpPut, HtpDelete}
  {
    match m
    case HtpGet => Some(GET)
    case HtpPost => Some(POST)
    case HtpPut => Some(PUT)
    case HtpDelete => Some(DELETE)
    case _ => None
  }

  /** Every verb has a method, distinct verbs get distinct methods, and
      the table is inverted by CmdTypeToVerb. */
  lemma VerbToCmdTypeInverse(v: Verb, m: HtpMethod)
    ensures CmdTypeToVerb(VerbToCmdType(v)) == Some(v)
    ensures CmdTypeToVerb(m).Some? ==> VerbToCmdType(CmdTypeToVerb(m).value) == m
  {
  }

  lemma VerbToCmdTypeInjective(v: Verb, w: Verb)
    requires VerbToCmdType(v) == VerbToCmdType(w)
    ensures v == w
  {
    VerbToCmdTypeInverse(v, HtpUnknown);
    VerbToCmdTypeInverse(w, HtpUnknown);
  }

  /** UrlFetcher::Request */
  datatype Request = Request(verb: Verb, url: Url, headers: Headers, body: string)

  /** NormaliseRequest: requests go out with a path and a Host header. */
  function NormaliseRequest(req: Request): (r: Request)
    ensures r.verb == req.verb && r.body == req.body
    ensures r.url.protocol == req.url.protocol && r.url.host == req.url.host && r.url.port == req.url.port
    ensures r.url.path == if req.url.path == [] then "/" else req.url.path
    ensures HasHeader(r.headers, "Host")
    ensures HasHeader(req.headers, "Host") ==> r.headers == req.headers
    ensures !HasHeader(req.headers, "Host") ==>
      multiset(r.headers) == multiset(req.headers) + multiset{("Host", req.url.host)}
  {
    var url := if req.url.path == [] then req.url.(path := "/") else req.url;
    var headers := if !HasHeader(req.headers, "Host") then Insert(req.headers, "Host", req.url.host)
                   else req.headers;
    InsertHasHeader(req.headers, "Host", req.url.host, "Host");
    req.(url := url, headers := headers)
  }

  /** Normalising a normalised request changes nothing. */
  lemma NormaliseIdempotent(req: Request)
    ensures NormaliseRequest(NormaliseRequest(req)) == NormaliseRequest(req)
  {
    var n := NormaliseRequest(req);
    assert n.url.path != [];
    assert n.url == n.url.(path := n.url.path);
  }

  /** The header list MakeRequest hands to evhtp: a Content-Length with
      the body's decimal size when there is a body and the caller set no
      Content-Length, then every caller header in multimap order. */
  function OutgoingHeaders(req: Request): (r: seq<Header>)
    ensures |r| == |req.headers| + (if req.body != [] && !HasHeader(req.headers, "Content-Length") then 1 else 0)
    ensures r[|r| - |req.headers|..] == req.headers
    ensures |r| > |req.headers| ==> r[0] == ("Content-Length", NatToDecimal(|req.body|))
  {
    (if req.body != [] && !HasHeader(req.headers, "Content-Length")
     then [("Content-Length", NatToDecimal(|req.body|))] else [])
    + req.headers
  }

  /** The outgoing list carries a Content-Length exactly when there is a
      body or the caller gave one; an injected one reads back as the body's
      length. */
  lemma OutgoingContentLength(req: Request)
    ensures HasHeader(OutgoingHeaders(req), "Content-Length")
        <==> req.body != [] || HasHeader(req.headers, "Content-Length")
    ensures req.body != [] && !HasHeader(req.headers, "Content-Length") ==>
      var v := OutgoingHeaders(req)[0].1; IsDigits(v) && DecimalValue(v) == |req.body|
  {
    var r := OutgoingHeaders(req);
    var extra := |r| - |req.headers|;
    if HasHeader(req.headers, "Content-Length") {
      var i :| 0 <= i < |req.headers| && req.headers[i].0 == "Content-Length";
      assert r[extra + i] == req.headers[i];
    }
    if HasHeader(r, "Content-Length") && extra == 0 {
      assert r == req.headers;
    }
    DecimalRoundTrip(|req.body|);
  }

  /** A reply evhtp delivered: the status, the headers in arrival order,
      and the body. */
  datatype Reply = Reply(status: int, headersIn: seq<Header>, body: string)

  /** UrlFetcher::Response */
  class Response {
    var statusCode: int
    var headers: Headers
    var body: string

    constructor ()
      ensures statusCode == 0 && headers == [] && body == []
    {
      statusCode, headers, body := 0, [], [];
    }

    /** The header copy in RequestDone: clear, then insert each incoming
        pair in arrival order. */
    method ReplaceHeaders(pairs: seq<Header>)
      modifies this
      ensures headers == InsertAll([], pairs)
      ensures statusCode == old(statusCode) && body == old(body)
    {
      headers := [];
      for i := 0 to |pairs|
        invariant headers == InsertAll([], pairs[..i])
        invariant statusCode == old(statusCode) && body == old(body)
      {
        assert pairs[..i + 1][..i] == pairs[..i];
        headers := Insert(headers, pairs[i].0, pairs[i].1);
      }
      assert pairs[..|pairs|] == pairs;
    }
  }

  const UnsupportedProtocolMessage := "UrlFetcher: unsupported protocol: "
  const MakeRequestErrorStatus := Status(Internal, "evhtp_make_request error")
  const SetBodyErrorStatus := Status(Internal, "could not set the request body")
  const ConnectionRefusedStatus := Status(FailedPrecondition, "connection refused")

  /** The header loop of State::MakeRequest: the injected Content-Length,
      then the request's own headers in order. */
  method BuildOutgoingHeaders(request: Request) returns (out: seq<Header>)
    ensures out == OutgoingHeaders(request)
  {
    out := [];
    if request.body != [] && !HasHeader(request.headers, "Content-Length") {
      out := out + [("Content-Length", NatToDecimal(|request.body|))];
    }
    ghost var injected := out;
    for i := 0 to |request.headers|
      invariant out == injected + request.headers[..i]
    {
      assert request.headers[..i + 1] == request.headers[..i] + [request.headers[i]];
      out := out + [request.headers[i]];
    }
    assert request.headers[..|request.headers|] == request.headers;
  }

  /** The state of one fetch, from construction until the task is done. */
  class State {
    const pool: ConnectionPool
    /** request_: the normalised request. */
    const request: Request
    const response: Response
    const task: Task
    /** conn_: the pooled connection while the request is in flight. */
    var conn: Option<Connection>
    /** The header list given to the outgoing evhtp request. */
    var headersOut: seq<Header>

    /** ~State checks that the connection went back to the pool: a State
        may be destroyed only while it holds none. */
    predicate MayBeDestroyed()
      reads this
    {
      conn.None?
    }

    /** State::State: a request for any protocol but "http" resolves the
        task with INVALID_ARGUMENT at once. */
    constructor (pool: ConnectionPool, request: Request, response: Response, task: Task)
      requires request.url.protocol != "http" ==> task.status.None?
      modifies task
      ensures this.pool == pool && this.response == response && this.task == task
      ensures this.request == NormaliseRequest(request)
      ensures conn.None? && headersOut == []
      ensures request.url.protocol != "http" ==>
        task.status == Some(Status(InvalidArgument, UnsupportedProtocolMessage + request.url.protocol))
      ensures request.url.protocol == "http" ==> task.status == old(task.status)
    {
      this.pool, this.response, this.task := pool, response, task;
      this.request := NormaliseRequest(request);
      conn, headersOut := None, [];
      new;
      if this.request.url.protocol != "http" {
        task.Return(Status(InvalidArgument, UnsupportedProtocolMessage + this.request.url.protocol));
        return;
      }
    }

    /** State::MakeRequest. `issueFails` is evhtp_make_request's failure,
        `attachFails` the failure to attach the body. */
    method MakeRequest(t: ThreadState, issueFails: bool, attachFails: bool)
      requires OnEventThread(t) && pool.Valid() && request.url.protocol == "http"
      requires task.status.None? && (issueFails ==> pool.maxConns >= 0)
      modifies this, pool, pool.base, task
      ensures pool.Valid() && headersOut == OutgoingHeaders(request)
      ensures var key := KeyOf(request.url);
        var (c, table) := Take(old(pool.conns), key, Connection(old(pool.base.connectionsMade), key));
        if issueFails then
          MayBeDestroyed() && pool.conns == Return(table, c) && task.status == Some(MakeRequestErrorStatus)
        else
          conn == Some(c) && pool.conns == table
          && task.status == (if request.body != [] && attachFails then Some(SetBodyErrorStatus) else None)
    ensures var key := KeyOf(request.url);
      var (c, table) := Take(old(pool.conns), key, Connection(old(pool.base.connectionsMade), key));
      var schedules := issueFails && !old(pool.cleanupScheduled) && |Entry(table, key)| + 1 > pool.maxConns;
      pool.cleanupScheduled == (old(pool.cleanupScheduled) || schedules)
      && pool.base.closures == old(pool.base.closures) + (if schedules then [pool.cleanupClosure] else [])
    {
      headersOut := BuildOutgoingHeaders(request);

      var c := pool.Get(request.url);
      conn := Some(c);
      var _ := VerbToCmdType(request.verb);
      if issueFails {
        pool.Put(conn);
        conn := None;
        task.Return(MakeRequestErrorStatus);
        return;
      }
      if request.body != [] {
        if attachFails {
          task.Return(SetBodyErrorStatus);
          return;
        }
      }
    }

    /** State::RequestDone: the connection always goes back to the pool
        first; then the reply decides the task's status. */
    method RequestDone(t: ThreadState, reply: Option<Reply>)
      requires OnEventThread(t) && conn.Some? && pool.Valid() && pool.maxConns >= 0
      requires task.status.None?
      modifies this, pool, pool.base, task, response
      ensures pool.Valid() && MayBeDestroyed() && pool.conns == Return(old(pool.conns), old(conn).value)
      ensures var schedules := !old(pool.cleanupScheduled)
                               && |Entry(old(pool.conns), old(conn).value.otherEnd)| + 1 > pool.maxConns;
        pool.cleanupScheduled == (old(pool.cleanupScheduled) || schedules)
        && pool.base.closures == old(pool.base.closures) + (if schedules then [pool.cleanupClosure] else [])
      ensures reply.None? ==>
        task.status == Some(UnknownStatus)
        && response.statusCode == old(response.statusCode)
        && response.headers == old(response.headers) && response.body == old(response.body)
      ensures reply.Some? && reply.value.status < 100 ==>
        task.status == Some(ConnectionRefusedStatus)
        && response.statusCode == reply.value.status
        && response.headers == old(response.headers) && response.body == old(response.body)
      ensures reply.Some? && reply.value.status >= 100 ==>
        task.status == Some(OkStatus)
        && response.statusCode == reply.value.status
        && response.headers == InsertAll([], reply.value.headersIn)
        && response.body == reply.value.body
    {
      pool.Put(conn);
      conn := None;
      if reply.None? {
        task.Return(UnknownStatus);
        return;
      }
      var req := reply.value;
      response.statusCode := req.status;
      if response.statusCode < 100 {
        task.Return(ConnectionRefusedStatus);
        return;
      }
      response.ReplaceHeaders(req.headersIn);
      response.body := req.body;
      task.Return(OkStatus);
    }
  }

  /** A fetch that completes with a reply leaves the response holding
      exactly the reply's headers, sorted by name, with the headers of one
      name in the order they arrived. */
  lemma ResponseHeadersAreReplyHeaders(reply: Reply)
    ensures multiset(InsertAll([], reply.headersIn)) == multiset(reply.headersIn)
    ensures |InsertAll([], reply.headersIn)| == |reply.headersIn|
    ensures forall name :: WithName(InsertAll([], reply.headersIn), name) == WithName(reply.headersIn, name)
  {
    assert |multiset(InsertAll([], reply.headersIn))| == |multiset(reply.headersIn)|;
    forall name
      ensures WithName(InsertAll([], reply.headersIn), name) == WithName(reply.headersIn, name)
    {
      InsertAllWithName(reply.headersIn, name);
    }
  }

  // ---------------------------------------------------------------------
  // operator<<(ostream&, const Response&)
  // ---------------------------------------------------------------------

  function HeaderLine(h: Header): string
  {
    "  " + h.0 + ": " + h.1 + "\n"
  }

  function HeaderLines(hs: seq<Header>): (r: string)
    ensures hs == [] ==> r == []
  {
    if hs == [] then [] else HeaderLines(hs[..|hs| - 1]) + HeaderLine(hs[|hs| - 1])
  }

  /** The status line and the opening of the header block. */
  function ResponseHead(statusCode: int): string
  {
    "status_code: " + IntToDecimal(statusCode) + "\n" + "headers {\n"
  }

  const BodyStart := "}\nbody: <<EOF\n"
  const BodyEnd := "EOF\n"

  /** The close of the header block and the body as a here-document. */
  function ResponseTail(body: string): string
  {
    BodyStart + body + BodyEnd
  }

  /** The text operator<< writes for a response. */
  function ResponseText(statusCode: int, headers: seq<Header>, body: string): string
  {
    ResponseHead(statusCode) + HeaderLines(headers) + ResponseTail(body)
  }

  /** The text can be taken apart again: it starts with the status line,
      then holds exactly the header lines, and the body sits between the
      here-document markers at the end. */
  lemma ResponseTextLayout(statusCode: int, headers: seq<Header>, body: string)
    ensures var text := ResponseText(statusCode, headers, body);
      var m, n := |ResponseHead(statusCode)|, |HeaderLines(headers)|;
      |text| == m + n + |BodyStart| + |body| + |BodyEnd|
      && text[..m] == ResponseHead(statusCode)
      && text[m..m + n] == HeaderLines(headers)
      && text[m + n + |BodyStart|..|text| - |BodyEnd|] == body
  {
    var head, lines, tail := ResponseHead(statusCode), HeaderLines(headers), ResponseTail(body);
    AppendAssoc(head, lines, tail);
    PrefixOfAppend(head, lines + tail, |head|);
    MiddleOfAppend(head, lines, tail);
    SuffixOfAppend(head + lines, tail);
    MiddleOfAppend(BodyStart, body, BodyEnd);
  }

  /** operator<< */
  method WriteResponse(output: OStream, resp: Response)
    modifies output
    ensures output.text == old(output.text) + ResponseText(resp.statusCode, resp.headers, resp.body)
  {
    var code, headers, body := resp.statusCode, resp.headers, resp.body;
    ghost var t0 := output.text;
    var head := "status_code: " + IntToDecimal(code) + "\n" + "headers {\n";
    output.Write(head);
    WriteHeaderLines(output, headers);
    var tail := BodyStart + body + BodyEnd;
    output.Write(tail);
    ghost var lines := HeaderLines(headers);
    assert head == ResponseHead(code) && tail == ResponseTail(body);
    AppendAssoc(t0, head + lines, tail);
    AppendAssoc(t0, head, lines);
  }

  /** The loop over the headers in operator<<. */
  method WriteHeaderLines(output: OStream, headers: seq<Header>)
    modifies output
    ensures output.text == old(output.text) + HeaderLines(headers)
  {
    for i := 0 to |headers|
      invariant output.text == old(output.text) + HeaderLines(headers[..i])
    {
      assert headers[..i + 1][..i] == headers[..i];
      ghost var before := HeaderLines(headers[..i]);
      output.Write("  " + headers[i].0 + ": " + headers[i].1 + "\n");
      AppendAssoc(old(output.text), before, HeaderLine(headers[i]));
    }
    assert headers[..|headers|] == headers;
  }
}
