/** What a client may write on a connection, and that the server executes just that: request lines ended
    by CR LF or by LF alone, data blocks where the server asked for them, bytes it throws away. */
module ConnWire {
  import opened Bytes
  import opened Pieces
  import opened ConnInput

  /** A line, and what the client sends behind it without waiting. `bare` lines end in LF alone. */
  datatype Request =
    | Plain(line: seq<byte>, bare: bool)
    | Upload(line: seq<byte>, bare: bool, data: seq<byte>)
    | Wasted(line: seq<byte>, bare: bool, junk: seq<byte>)

  const CRLF: seq<byte> := [13, 10]
  const LF: seq<byte> := [10]

  /** A line has no newline in it and no carriage return at its end; it is empty only before a bare LF. */
  predicate LineOk(line: seq<byte>, bare: bool) {
    10 !in line && (line == [] ==> bare) && (line != [] ==> line[|line| - 1] != 13)
  }

  function RenderOne(r: Request): seq<byte> {
    r.line + (if r.bare then LF else CRLF)
    + match r
      case Plain(_, _) => []
      case Upload(_, _, data) => data + CRLF
      case Wasted(_, _, junk) => junk
  }

  function Render(rs: seq<Request>): seq<byte> {
    if rs == [] then [] else RenderOne(rs[0]) + Render(rs[1..])
  }

  function EventsOf(r: Request): seq<Event> {
    if r.Upload? then [Line(r.line), Block(r.data + CRLF)] else [Line(r.line)]
  }

  function Executed(rs: seq<Request>): seq<Event> {
    if rs == [] then [] else EventsOf(rs[0]) + Executed(rs[1..])
  }

  /** The client sends what the server will ask for. */
  predicate Answers(policy: Policy, hist: seq<Event>, r: Request) {
    LineOk(r.line, r.bare) &&
    match r
    case Plain(line, _) => policy(hist + [Line(line)]).Go?
    case Upload(line, _, data) => policy(hist + [Line(line)]) == Need(|data|) && policy(hist + EventsOf(r)) != Close
    case Wasted(line, _, junk) => policy(hist + [Line(line)]) == Drop(|junk|)
  }

  predicate Polite(policy: Policy, hist: seq<Event>, rs: seq<Request>)
    decreases |rs|
  {
    rs != [] ==> Answers(policy, hist, rs[0]) && Polite(policy, hist + EventsOf(rs[0]), rs[1..])
  }

  /** The line of a request, whichever way it ends. */
  lemma LineArrives(policy: Policy, hist: seq<Event>, line: seq<byte>, bare: bool, rest: seq<byte>)
    requires LineOk(line, bare)
    ensures var hist' := hist + [Line(line)];
      Feed(policy, Session(hist, Reading([])), line + (if bare then LF else CRLF) + rest)
      == Feed(policy, Session(hist', AfterLine(policy, hist')), rest)
  {
    hide AfterLine, Feed;
    var bs := line + (if bare then LF else CRLF) + rest;
    var el := if bare then |line| else |line| + 1;
    var ended := if bare then line else line + [13];
    assert bs == ended + ([10] + rest);
    assert bs[..el] == ended && bs[el] == NEWLINE && bs[el + 1..] == rest;
    assert Strip(ended) == line;
    FeedLine(policy, hist, bs, el);
  }

  /** One request is executed as it was meant, and the next line is read after it. */
  lemma RequestArrives(policy: Policy, hist: seq<Event>, r: Request, rest: seq<byte>)
    requires Answers(policy, hist, r)
    ensures Feed(policy, Session(hist, Reading([])), RenderOne(r) + rest)
      == Feed(policy, Session(hist + EventsOf(r), Reading([])), rest)
  {
    hide Feed;
    var hist' := hist + [Line(r.line)];
    var tail := match r case Plain(_, _) => [] case Upload(_, _, data) => data + CRLF case Wasted(_, _, junk) => junk;
    assert RenderOne(r) + rest == r.line + (if r.bare then LF else CRLF) + (tail + rest);
    LineArrives(policy, hist, r.line, r.bare, tail + rest);
    FeedConcat(policy, Session(hist', AfterLine(policy, hist')), tail, rest);
    match r {
      case Plain(_, _) =>
        assert tail + rest == rest;
      case Upload(_, _, data) =>
        FeedItem(policy, hist', |data| + 2, [], tail);
        assert [] + tail == tail && hist' + [Block(tail)] == hist + EventsOf(r);
      case Wasted(_, _, junk) =>
        FeedSkip(policy, hist', |junk|, junk);
    }
  }

  /** The server executes exactly the requests, each block with its line end, in order, and nothing else. */
  lemma {:induction false} WireLaw(policy: Policy, hist: seq<Event>, rs: seq<Request>, rest: seq<byte>)
    requires Polite(policy, hist, rs)
    ensures Feed(policy, Session(hist, Reading([])), Render(rs) + rest)
      == Feed(policy, Session(hist + Executed(rs), Reading([])), rest)
    decreases |rs|
  {
    hide Feed, RenderOne, EventsOf, Answers;
    if rs == [] {
      assert Render(rs) + rest == rest && hist + Executed(rs) == hist;
    } else {
      assert Render(rs) + rest == RenderOne(rs[0]) + (Render(rs[1..]) + rest);
      RequestArrives(policy, hist, rs[0], Render(rs[1..]) + rest);
      WireLaw(policy, hist + EventsOf(rs[0]), rs[1..], rest);
      assert hist + Executed(rs) == hist + EventsOf(rs[0]) + Executed(rs[1..]);
    }
  }

  /** After a line that ends the connection nothing more is executed. */
  lemma LastWords(policy: Policy, rs: seq<Request>, line: seq<byte>, bare: bool, rest: seq<byte>)
    requires Polite(policy, [], rs) && LineOk(line, bare) && policy(Executed(rs) + [Line(line)]) == Close
    ensures Feed(policy, START, Render(rs) + (line + (if bare then LF else CRLF) + rest)).hist
      == Executed(rs) + [Line(line)]
  {
    hide Feed, Render, Executed;
    var hist := Executed(rs);
    WireLaw(policy, [], rs, line + (if bare then LF else CRLF) + rest);
    assert [] + hist == hist;
    LineArrives(policy, hist, line, bare, rest);
    FeedClosed(policy, hist + [Line(line)], rest);
  }

  /** An empty line that ends in CR LF is not empty: it is executed with its carriage return. */
  lemma EmptyLine(policy: Policy, hist: seq<Event>, rest: seq<byte>)
    ensures var hist' := hist + [Line([13])];
      Feed(policy, Session(hist, Reading([])), CRLF + rest)
      == Feed(policy, Session(hist', AfterLine(policy, hist')), rest)
  {
    hide AfterLine, Feed;
    var bs := CRLF + rest;
    assert bs[..1] == [13] && bs[1] == NEWLINE && bs[2..] == rest;
    FeedLine(policy, hist, bs, 1);
  }

  /** However the network cuts them up. */
  method ServeRequests(policy: Policy, net: Network, ghost rs: seq<Request>) returns (hist: seq<Event>)
    requires Polite(policy, [], rs) && Flat(net) == Render(rs)
    ensures hist == Executed(rs)
  {
    hide Polite, Render, Executed;
    hist := Serve(policy, net);
    WireLaw(policy, [], rs, []);
    assert Render(rs) + [] == Render(rs) && [] + Executed(rs) == Executed(rs);
  }
}
