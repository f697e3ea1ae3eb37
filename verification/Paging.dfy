/** Paging through the lists of several nodes with opaque tokens "node:offset". */
module Paging {
  import opened Text
  import opened Status

  /** Stands for "no limit". */
  const UNLIMITED: int := 2_000_000_000

  datatype Page<+T> = Page(entries: seq<T>, next: string)

  datatype Start = Start(offset: int, node: nat)

  function TokenOf(name: string, offset: int): string { name + ":" + Itoa(offset) }

  function PositionOf(nodes: seq<string>, name: string): (i: nat)
    ensures i <= |nodes|
    ensures i < |nodes| ==> nodes[i] == name
    ensures forall k :: 0 <= k < i ==> nodes[k] != name
  {
    if nodes == [] || nodes[0] == name then 0 else 1 + PositionOf(nodes[1..], name)
  }

  /** Where a token continues. */
  function Locate(token: string, nodes: seq<string>): Result<Start> {
    if nodes == [] then Err(Aborted)
    else if token == "" then Ok(Start(0, 0))
    else
      var tok := Split(token, ':');
      if |tok| != 2 then Err(Aborted)
      else
        match ParseInt32(tok[1])
        case None => Err(Aborted)
        case Some(offset) =>
          var i := PositionOf(nodes, tok[0]);
          if i == |nodes| then Err(Aborted) else Ok(Start(offset, i))
  }

  method GetPagingValues(startToken: string, nodes: seq<string>) returns (r: Result<Start>)
    ensures r == Locate(startToken, nodes)
    ensures r.Ok? ==> r.value.node < |nodes| && -0x8000_0000 <= r.value.offset < 0x8000_0000
  {
    if |nodes| == 0 {
      return Err(Aborted);
    }
    var offset, nodeIndex := 0, -1;
    if startToken != "" {
      var tok := Split(startToken, ':');
      if |tok| != 2 {
        return Err(Aborted);
      }
      var val := ParseInt32(tok[1]);
      if val.None? {
        return Err(Aborted);
      }
      offset := val.value;
      var i := 0;
      while i < |nodes|
        invariant 0 <= i <= |nodes| && nodeIndex == -1
        invariant forall k :: 0 <= k < i ==> nodes[k] != tok[0]
      {
        if nodes[i] == tok[0] {
          nodeIndex := i;
          break;
        }
        i := i + 1;
      }
      if nodeIndex == -1 {
        return Err(Aborted);
      }
    }
    if nodeIndex == -1 {
      nodeIndex := 0;
    }
    return Ok(Start(offset, nodeIndex));
  }

  /** The entries a page shows of one list. */
  function Window<T>(list: seq<T>, offset: int, max: nat): seq<T> {
    var from := if offset < 0 then 0 else if offset > |list| then |list| else offset;
    var to := if max > |list| - from then |list| else from + max;
    list[from..to]
  }

  /** A page of one list, with the token for its rest or for the next node. */
  function PageHere<T>(nodes: seq<string>, i: nat, list: seq<T>, offset: int, max: nat, capped: bool): Page<T>
    requires i < |nodes|
  {
    var entries := Window(list, offset, max);
    if !(capped && max == UNLIMITED) && offset + |entries| < |list| then
      Page(entries, TokenOf(nodes[i], offset + |entries|))
    else
      Page(entries, if i + 1 < |nodes| then TokenOf(nodes[i + 1], 0) else "")
  }

  /** The page that starts at a node: empty nodes are passed over, and one page shows
      entries of one node only. A `capped` listing gives no continuation on the same
      node when it was asked for everything. */
  function PageAt<T>(nodes: seq<string>, lists: seq<seq<T>>, i: nat, offset: int, max: nat, capped: bool): Page<T>
    requires |nodes| == |lists|
    decreases |nodes| - i
  {
    if i >= |nodes| then Page([], "")
    else if lists[i] == [] then PageAt(nodes, lists, i + 1, offset, max, capped)
    else PageHere(nodes, i, lists[i], offset, max, capped)
  }

  lemma PageStep<T>(nodes: seq<string>, lists: seq<seq<T>>, i: nat, list: seq<T>, offset: int, max: nat, capped: bool)
    requires |nodes| == |lists| && i < |nodes| && list == lists[i]
    ensures PageAt(nodes, lists, i, offset, max, capped)
            == if list == [] then PageAt(nodes, lists, i + 1, offset, max, capped)
               else PageHere(nodes, i, list, offset, max, capped)
  {
  }

  function Limit(maxEntries: nat): nat { if maxEntries == 0 then UNLIMITED else maxEntries }

  /** One listing request. */
  function Request<T>(nodes: seq<string>, lists: seq<seq<T>>, token: string, maxEntries: int, capped: bool)
    : Result<Page<T>>
    requires |nodes| == |lists|
  {
    if maxEntries < 0 then Err(InvalidArgument)
    else
      match Locate(token, nodes)
      case Err(code) => Err(code)
      case Ok(start) => Ok(PageAt(nodes, lists, start.node, start.offset, Limit(maxEntries), capped))
  }

  /* ---------------------------------------------------------------- tokens */

  ghost predicate Distinct(nodes: seq<string>) {
    forall i, j :: 0 <= i < j < |nodes| ==> nodes[i] != nodes[j]
  }

  /** Node names can stand in tokens, and offsets into the lists fit 32 bits. */
  ghost predicate Catalog<T>(nodes: seq<string>, lists: seq<seq<T>>) {
    && |nodes| == |lists| && nodes != [] && Distinct(nodes)
    && (forall i :: 0 <= i < |nodes| ==> ':' !in nodes[i])
    && (forall i :: 0 <= i < |lists| ==> |lists[i]| <= 0x8000_0000)
  }

  predicate AcceptedToken(token: string, nodes: seq<string>) { Locate(token, nodes).Ok? }

  /** An emitted token is read back as the node and offset it was made of. */
  lemma TokenRoundTrip(nodes: seq<string>, i: nat, offset: int)
    requires i < |nodes| && Distinct(nodes) && ':' !in nodes[i]
    requires -0x8000_0000 <= offset < 0x8000_0000
    ensures TokenOf(nodes[i], offset) != ""
    ensures Locate(TokenOf(nodes[i], offset), nodes) == Ok(Start(offset, i))
  {
    Int32RoundTrip(offset);
    SplitCons(nodes[i], ':', Itoa(offset));
    SplitNone(Itoa(offset), ':');
    assert PositionOf(nodes, nodes[i]) == i;
  }

  /** Conversely an accepted token names a listed node and a 32-bit offset. */
  lemma AcceptedTokenForm(token: string, nodes: seq<string>)
    requires AcceptedToken(token, nodes) && token != ""
    ensures var start := Locate(token, nodes).value;
            && start.node < |nodes| && -0x8000_0000 <= start.offset < 0x8000_0000
            && exists digits: string ::
                 token == nodes[start.node] + ":" + digits && ParseInt32(digits) == Some(start.offset)
  {
    SplitInTwo(token, ':');
    var tok := Split(token, ':');
    assert token == nodes[PositionOf(nodes, tok[0])] + ":" + tok[1];
  }

  lemma LocateRange(token: string, nodes: seq<string>)
    requires AcceptedToken(token, nodes)
    ensures var start := Locate(token, nodes).value;
            start.node < |nodes| && -0x8000_0000 <= start.offset < 0x8000_0000
  {
  }

  /* ---------------------------------------------------------------- progress */

  function Remaining<T>(list: seq<T>, offset: int): nat { if offset < |list| then |list| - offset else 0 }

  /** `later` is further along than `start`. */
  ghost predicate Further<T>(lists: seq<seq<T>>, start: Start, later: Start)
    requires start.node < |lists|
  {
    && later.node < |lists|
    && (later.node > start.node
        || (later.node == start.node
            && Remaining(lists[later.node], later.offset) < Remaining(lists[start.node], start.offset)))
  }

  /** From wherever a page starts, its token is accepted again and is further along, and
      the page keeps its limit. */
  lemma {:induction false} NextPage<T>(nodes: seq<string>, lists: seq<seq<T>>, start: Start, max: nat, capped: bool)
    requires Catalog(nodes, lists) && start.node < |nodes| && max >= 1
    requires -0x8000_0000 <= start.offset < 0x8000_0000
    ensures var p := PageAt(nodes, lists, start.node, start.offset, max, capped);
            && |p.entries| <= max
            && (p.next != "" ==> AcceptedToken(p.next, nodes)
                                 && Further(lists, start, Locate(p.next, nodes).value))
    decreases |nodes| - start.node
  {
    var i := start.node;
    if lists[i] != [] {
      NextPageHere(nodes, lists, start, max, capped);
    } else if i + 1 < |nodes| {
      NextPage(nodes, lists, Start(start.offset, i + 1), max, capped);
    }
  }

  lemma NextPageHere<T>(nodes: seq<string>, lists: seq<seq<T>>, start: Start, max: nat, capped: bool)
    requires Catalog(nodes, lists) && start.node < |nodes| && max >= 1
    requires -0x8000_0000 <= start.offset < 0x8000_0000 && lists[start.node] != []
    ensures var p := PageAt(nodes, lists, start.node, start.offset, max, capped);
            && |p.entries| <= max
            && (p.next != "" ==> AcceptedToken(p.next, nodes)
                                 && Further(lists, start, Locate(p.next, nodes).value))
  {
    var i := start.node;
    var n := |Window(lists[i], start.offset, max)|;
    if !(capped && max == UNLIMITED) && start.offset + n < |lists[i]| {
      var token := TokenOf(nodes[i], start.offset + n);
      TokenRoundTrip(nodes, i, start.offset + n);
      assert Further(lists, start, Start(start.offset + n, i));
      Points(nodes, token, Start(start.offset + n, i));
    } else if i + 1 < |nodes| {
      TokenRoundTrip(nodes, i + 1, 0);
      Points(nodes, TokenOf(nodes[i + 1], 0), Start(0, i + 1));
    }
  }

  lemma Points(nodes: seq<string>, token: string, start: Start)
    requires Locate(token, nodes) == Ok(start)
    ensures AcceptedToken(token, nodes) && Locate(token, nodes).value == start
  {
  }

  /* ---------------------------------------------------------------- following tokens */

  /** The pages a caller sees that follows the tokens, asking for size(k) entries in its
      k-th request. That this function is total says that the tokens run out. */
  ghost function Drain<T>(nodes: seq<string>, lists: seq<seq<T>>, token: string, size: nat -> nat, k: nat, capped: bool)
    : (pages: seq<Page<T>>)
    requires Catalog(nodes, lists) && AcceptedToken(token, nodes)
    ensures |pages| >= 1
    decreases |nodes| - Locate(token, nodes).value.node,
              Remaining(lists[Locate(token, nodes).value.node], Locate(token, nodes).value.offset)
  {
    LocateRange(token, nodes);
    var start := Locate(token, nodes).value;
    var p := PageAt(nodes, lists, start.node, start.offset, Limit(size(k)), capped);
    NextPage(nodes, lists, start, Limit(size(k)), capped);
    if p.next == "" then [p] else [p] + Drain(nodes, lists, p.next, size, k + 1, capped)
  }

  /** The token of the j-th request of a chain. */
  function TokenAt<T>(token: string, pages: seq<Page<T>>, j: nat): string
    requires j <= |pages|
  {
    if j == 0 then token else pages[j - 1].next
  }

  /** The page is the reply to a request, and keeps its limit. */
  ghost predicate Answered<T>(nodes: seq<string>, lists: seq<seq<T>>, token: string, max: nat, capped: bool, p: Page<T>)
    requires |nodes| == |lists|
  {
    Request(nodes, lists, token, max, capped) == Ok(p) && |p.entries| <= Limit(max)
  }

  /** The j-th page answers the request for the token of the page before, and has a token
      unless it is the last. */
  ghost predicate Linked<T>(nodes: seq<string>, lists: seq<seq<T>>, token: string, size: nat -> nat, k: nat,
                            capped: bool, pages: seq<Page<T>>, j: nat)
    requires |nodes| == |lists| && j < |pages|
  {
    && Answered(nodes, lists, TokenAt(token, pages, j), size(k + j), capped, pages[j])
    && (pages[j].next == "" <==> j == |pages| - 1)
  }

  ghost predicate Chained<T>(nodes: seq<string>, lists: seq<seq<T>>, token: string, size: nat -> nat, k: nat,
                             capped: bool, pages: seq<Page<T>>)
    requires |nodes| == |lists|
  {
    forall j: nat :: j < |pages| ==> Linked(nodes, lists, token, size, k, capped, pages, j)
  }

  /** From every accepted token, whatever its offset, the tokens lead to a last page. */
  lemma {:induction false} DrainChained<T>(nodes: seq<string>, lists: seq<seq<T>>, token: string, size: nat -> nat,
                                           k: nat, capped: bool)
    requires Catalog(nodes, lists) && AcceptedToken(token, nodes)
    ensures Chained(nodes, lists, token, size, k, capped, Drain(nodes, lists, token, size, k, capped))
    decreases |nodes| - Locate(token, nodes).value.node,
              Remaining(lists[Locate(token, nodes).value.node], Locate(token, nodes).value.offset)
  {
    LocateRange(token, nodes);
    var start := Locate(token, nodes).value;
    var p := PageAt(nodes, lists, start.node, start.offset, Limit(size(k)), capped);
    NextPage(nodes, lists, start, Limit(size(k)), capped);
    assert Request(nodes, lists, token, size(k), capped) == Ok(p);
    if p.next != "" {
      DrainChained(nodes, lists, p.next, size, k + 1, capped);
      ChainLonger(nodes, lists, token, size, k, capped, p, Drain(nodes, lists, p.next, size, k + 1, capped));
    }
  }

  lemma ChainLonger<T>(nodes: seq<string>, lists: seq<seq<T>>, token: string, size: nat -> nat, k: nat, capped: bool,
                       p: Page<T>, rest: seq<Page<T>>)
    requires |nodes| == |lists| && |rest| >= 1 && p.next != "" && Answered(nodes, lists, token, size(k), capped, p)
    requires Chained(nodes, lists, p.next, size, k + 1, capped, rest)
    ensures Chained(nodes, lists, token, size, k, capped, [p] + rest)
  {
    forall j: nat | j <= |rest| ensures Linked(nodes, lists, token, size, k, capped, [p] + rest, j) {
      if j > 0 {
        assert Linked(nodes, lists, p.next, size, k + 1, capped, rest, j - 1);
        LinkShifts(nodes, lists, token, size, k, capped, p, rest, j - 1);
      }
    }
  }

  lemma LinkShifts<T>(nodes: seq<string>, lists: seq<seq<T>>, token: string, size: nat -> nat, k: nat, capped: bool,
                      p: Page<T>, rest: seq<Page<T>>, j: nat)
    requires |nodes| == |lists| && j < |rest| && Linked(nodes, lists, p.next, size, k + 1, capped, rest, j)
    ensures Linked(nodes, lists, token, size, k, capped, [p] + rest, j + 1)
  {
    var pages := [p] + rest;
    assert pages[j + 1] == rest[j] && TokenAt(token, pages, j + 1) == TokenAt(p.next, rest, j);
    assert k + (j + 1) == k + 1 + j;
  }

  /** All entries of the pages, in order. */
  ghost function Entries<T>(pages: seq<Page<T>>): seq<T> {
    if pages == [] then [] else pages[0].entries + Entries(pages[1..])
  }

  function Flatten<T>(lists: seq<seq<T>>): seq<T> {
    if lists == [] then [] else lists[0] + Flatten(lists[1..])
  }

  /** No list is longer than an unlimited page. */
  predicate Fits<T>(lists: seq<seq<T>>) { forall i :: 0 <= i < |lists| ==> |lists[i]| <= UNLIMITED }

  /** The entries that lie behind a start. */
  ghost function Behind<T>(lists: seq<seq<T>>, start: Start): seq<T>
    requires start.node < |lists| && 0 <= start.offset <= |lists[start.node]|
  {
    lists[start.node][start.offset..] + Flatten(lists[start.node + 1..])
  }

  /** A page, its token, and what lies behind them fit together. */
  ghost predicate Splits<T>(nodes: seq<string>, lists: seq<seq<T>>, start: Start, p: Page<T>)
    requires start.node < |lists| && 0 <= start.offset <= |lists[start.node]|
  {
    if p.next == "" then p.entries == Behind(lists, start)
    else
      && AcceptedToken(p.next, nodes)
      && var later := Locate(p.next, nodes).value;
      && later.node < |lists| && 0 <= later.offset <= |lists[later.node]|
      && p.entries + Behind(lists, later) == Behind(lists, start)
      && (later.offset < |lists[later.node]| || later.offset == 0)
      && (start.offset < |lists[start.node]| || start.offset == 0 ==> p.entries != [])
  }

  lemma FlattenNext<T>(lists: seq<seq<T>>, i: nat)
    requires i < |lists|
    ensures Flatten(lists[i..]) == lists[i] + Flatten(lists[i + 1..])
    ensures Behind(lists, Start(0, i)) == Flatten(lists[i..])
  {
    assert lists[i..][0] == lists[i] && lists[i..][1..] == lists[i + 1..];
    assert lists[i][0..] == lists[i];
  }

  lemma WindowSplits<T>(list: seq<T>, offset: nat, max: nat)
    requires offset <= |list|
    ensures var shown := Window(list, offset, max); var reached := offset + |shown|;
            && reached <= |list| && list[offset..] == shown + list[reached..]
            && |shown| == (if max > |list| - offset then |list| - offset else max)
  {
  }

  lemma StaysOnNode<T>(nodes: seq<string>, lists: seq<seq<T>>, start: Start, shown: seq<T>, reached: nat, token: string)
    requires Catalog(nodes, lists) && start.node < |nodes| && 0 <= start.offset <= |lists[start.node]|
    requires start.offset < reached < |lists[start.node]| && shown != []
    requires lists[start.node][start.offset..] == shown + lists[start.node][reached..]
    requires token != "" && Locate(token, nodes) == Ok(Start(reached, start.node))
    ensures Splits(nodes, lists, start, Page(shown, token))
  {
    var list, tail := lists[start.node], Flatten(lists[start.node + 1..]);
    assert shown + (list[reached..] + tail) == (shown + list[reached..]) + tail;
  }

  lemma LeavesNode<T>(nodes: seq<string>, lists: seq<seq<T>>, start: Start)
    requires Catalog(nodes, lists) && start.node < |nodes| && 0 <= start.offset <= |lists[start.node]|
    requires lists[start.node] != []
    ensures var i := start.node;
            Splits(nodes, lists, start,
                Page(lists[i][start.offset..], if i + 1 < |nodes| then TokenOf(nodes[i + 1], 0) else ""))
  {
    var i := start.node;
    if i + 1 < |nodes| {
      TokenRoundTrip(nodes, i + 1, 0);
      FlattenNext(lists, i + 1);
      MovesOn(nodes, lists, start, TokenOf(nodes[i + 1], 0));
    } else {
      assert lists[i + 1..] == [];
    }
  }

  lemma MovesOn<T>(nodes: seq<string>, lists: seq<seq<T>>, start: Start, token: string)
    requires Catalog(nodes, lists) && start.node + 1 < |nodes| && 0 <= start.offset <= |lists[start.node]|
    requires lists[start.node] != [] && token != "" && Locate(token, nodes) == Ok(Start(0, start.node + 1))
    ensures Splits(nodes, lists, start, Page(lists[start.node][start.offset..], token))
  {
    FlattenNext(lists, start.node + 1);
  }

  lemma PageSplitsHere<T>(nodes: seq<string>, lists: seq<seq<T>>, start: Start, max: nat, capped: bool)
    requires Catalog(nodes, lists) && start.node < |nodes| && max >= 1 && (capped ==> Fits(lists))
    requires 0 <= start.offset <= |lists[start.node]| && start.offset < 0x8000_0000 && lists[start.node] != []
    ensures Splits(nodes, lists, start, PageAt(nodes, lists, start.node, start.offset, max, capped))
  {
    var list := lists[start.node];
    var shown := Window(list, start.offset, max);
    var reached := start.offset + |shown|;
    WindowSplits(list, start.offset, max);
    if !(capped && max == UNLIMITED) && reached < |list| {
      TokenRoundTrip(nodes, start.node, reached);
      StaysOnNode(nodes, lists, start, shown, reached, TokenOf(nodes[start.node], reached));
    } else {
      assert reached == |list|;
      assert shown == list[start.offset..];
      LeavesNode(nodes, lists, start);
    }
  }

  /** What a page shows, followed by what lies behind its token, is what lay behind its start. */
  lemma {:induction false} PageSplits<T>(nodes: seq<string>, lists: seq<seq<T>>, start: Start, max: nat, capped: bool)
    requires Catalog(nodes, lists) && start.node < |nodes| && max >= 1 && (capped ==> Fits(lists))
    requires 0 <= start.offset <= |lists[start.node]| && start.offset < 0x8000_0000
    ensures Splits(nodes, lists, start, PageAt(nodes, lists, start.node, start.offset, max, capped))
    decreases |nodes| - start.node
  {
    var i := start.node;
    if lists[i] != [] {
      PageSplitsHere(nodes, lists, start, max, capped);
    } else if i + 1 < |nodes| {
      PageSplits(nodes, lists, Start(0, i + 1), max, capped);
      FlattenNext(lists, i);
      FlattenNext(lists, i + 1);
    } else {
      assert Behind(lists, start) == [];
    }
  }

  lemma {:induction false} DrainFrom<T>(nodes: seq<string>, lists: seq<seq<T>>, token: string, size: nat -> nat,
                                        k: nat, capped: bool)
    requires Catalog(nodes, lists) && AcceptedToken(token, nodes) && (capped ==> Fits(lists))
    requires var start := Locate(token, nodes).value;
             start.node < |lists| && 0 <= start.offset <= |lists[start.node]|
             && (start.offset < |lists[start.node]| || start.offset == 0)
    ensures var pages := Drain(nodes, lists, token, size, k, capped);
            && Entries(pages) == Behind(lists, Locate(token, nodes).value)
            && forall j :: 0 <= j < |pages| - 1 ==> pages[j].entries != []
    decreases |nodes| - Locate(token, nodes).value.node,
              Remaining(lists[Locate(token, nodes).value.node], Locate(token, nodes).value.offset)
  {
    LocateRange(token, nodes);
    var start := Locate(token, nodes).value;
    var max := Limit(size(k));
    var p := PageAt(nodes, lists, start.node, start.offset, max, capped);
    NextPage(nodes, lists, start, max, capped);
    PageSplits(nodes, lists, start, max, capped);
    var pages := Drain(nodes, lists, token, size, k, capped);
    if p.next == "" {
      assert pages == [p];
      assert Entries(pages[1..]) == [];
    } else {
      DrainFrom(nodes, lists, p.next, size, k + 1, capped);
      var rest := Drain(nodes, lists, p.next, size, k + 1, capped);
      assert pages == [p] + rest && pages[1..] == rest;
    }
  }

  /** Following the tokens from the empty one, with any mix of page sizes, shows every
      entry of every node exactly once and in order, and no page but the last is empty. */
  lemma DrainComplete<T>(nodes: seq<string>, lists: seq<seq<T>>, size: nat -> nat, capped: bool)
    requires Catalog(nodes, lists) && (capped ==> Fits(lists))
    ensures AcceptedToken("", nodes)
    ensures Entries(Drain(nodes, lists, "", size, 0, capped)) == Flatten(lists)
    ensures var pages := Drain(nodes, lists, "", size, 0, capped);
            forall j :: 0 <= j < |pages| - 1 ==> pages[j].entries != []
  {
    DrainFrom(nodes, lists, "", size, 0, capped);
    FlattenNext(lists, 0);
    assert lists[0..] == lists;
  }

  /* ---------------------------------------------------------------- the limit of "everything" */

  /** What a capped listing shows of each list when everything is asked for. */
  ghost function FlattenCapped<T>(lists: seq<seq<T>>): seq<T> {
    if lists == [] then [] else Window(lists[0], 0, UNLIMITED) + FlattenCapped(lists[1..])
  }

  /** From the start of a node, every node gives one page of at most an unlimited page's entries. */
  lemma {:induction false} CappedFrom<T>(nodes: seq<string>, lists: seq<seq<T>>, token: string, k: nat)
    requires Catalog(nodes, lists) && AcceptedToken(token, nodes)
    requires Locate(token, nodes).value.offset == 0
    ensures Entries(Drain(nodes, lists, token, (n: nat) => 0 as nat, k, true))
            == FlattenCapped(lists[Locate(token, nodes).value.node..])
    decreases |nodes| - Locate(token, nodes).value.node
  {
    LocateRange(token, nodes);
    var size := (n: nat) => 0 as nat;
    var start := Locate(token, nodes).value;
    var p := PageAt(nodes, lists, start.node, 0, UNLIMITED, true);
    NextPage(nodes, lists, start, UNLIMITED, true);
    CappedPage(nodes, lists, start.node);
    var pages := Drain(nodes, lists, token, size, k, true);
    if p.next == "" {
      assert pages == [p] && Entries(pages[1..]) == [];
    } else {
      CappedFrom(nodes, lists, p.next, k + 1);
      var rest := Drain(nodes, lists, p.next, size, k + 1, true);
      assert pages == [p] + rest && pages[1..] == rest;
    }
  }

  lemma {:induction false} CappedPage<T>(nodes: seq<string>, lists: seq<seq<T>>, i: nat)
    requires Catalog(nodes, lists) && i < |nodes|
    ensures var p := PageAt(nodes, lists, i, 0, UNLIMITED, true);
            if p.next == "" then p.entries == FlattenCapped(lists[i..])
            else && AcceptedToken(p.next, nodes)
                 && var later := Locate(p.next, nodes).value;
                 && later.offset == 0 && i < later.node < |nodes|
                 && p.entries + FlattenCapped(lists[later.node..]) == FlattenCapped(lists[i..])
    decreases |nodes| - i
  {
    assert lists[i..][0] == lists[i] && lists[i..][1..] == lists[i + 1..];
    if i + 1 < |nodes| {
      TokenRoundTrip(nodes, i + 1, 0);
      CappedPage(nodes, lists, i + 1);
    } else {
      assert lists[i + 1..] == [];
    }
  }

  lemma {:induction false} CappedLength<T>(lists: seq<seq<T>>)
    ensures |FlattenCapped(lists)| <= |Flatten(lists)|
    ensures FlattenCapped(lists) == Flatten(lists) <==> Fits(lists)
    ensures |FlattenCapped(lists)| == |Flatten(lists)| <==> Fits(lists)
  {
    if lists != [] {
      CappedLength(lists[1..]);
      var w := Window(lists[0], 0, UNLIMITED);
      assert |lists[0]| <= UNLIMITED ==> w == lists[0];
      assert Fits(lists) <==> |lists[0]| <= UNLIMITED && Fits(lists[1..]) by {
        assert lists == [lists[0]] + lists[1..];
      }
    }
  }

  /** Asking a capped listing for everything shows everything exactly when no node has
      more entries than an unlimited page. */
  lemma CappedCompleteIff<T>(nodes: seq<string>, lists: seq<seq<T>>)
    requires Catalog(nodes, lists)
    ensures AcceptedToken("", nodes)
    ensures Entries(Drain(nodes, lists, "", (n: nat) => 0 as nat, 0, true)) == Flatten(lists) <==> Fits(lists)
  {
    CappedFrom(nodes, lists, "", 0);
    assert lists[0..] == lists;
    CappedLength(lists);
  }

  /* ---------------------------------------------------------------- one page */

  /** One page of a list, entry by entry: it starts at the offset, or at the front for a
      negative one, is as long as the list and the limit allow, and its token adds its length
      to the offset as given, unless that is past the list. */
  lemma PageShows<T>(nodes: seq<string>, lists: seq<seq<T>>, i: nat, offset: int, max: nat, capped: bool)
    requires |nodes| == |lists| && i < |nodes| && lists[i] != []
    ensures var p := PageAt(nodes, lists, i, offset, max, capped);
            var from := if offset < 0 then 0 else offset;
            var left := if from < |lists[i]| then |lists[i]| - from else 0;
            var shown := if max < left then max else left;
            && |p.entries| == shown
            && (forall k :: 0 <= k < shown ==> p.entries[k] == lists[i][from + k])
            && (if offset + shown < |lists[i]| && !(capped && max == 2_000_000_000) then
                  p.next == nodes[i] + ":" + Itoa(offset + shown)
                else if i + 1 < |nodes| then p.next == nodes[i + 1] + ":" + "0"
                else p.next == "")
  {
    assert Itoa(0) == "0";
  }

  /** The codes of refused requests; asking for no entries in particular asks for all, up to
      two thousand million. */
  lemma RequestCodes<T>(nodes: seq<string>, lists: seq<seq<T>>, token: string, maxEntries: int, capped: bool)
    requires |nodes| == |lists|
    ensures maxEntries < 0 ==> Request(nodes, lists, token, maxEntries, capped) == Err(InvalidArgument)
    ensures maxEntries >= 0 && !AcceptedToken(token, nodes) ==>
              Request(nodes, lists, token, maxEntries, capped) == Err(Aborted)
    ensures Request(nodes, lists, token, 0, capped) == Request(nodes, lists, token, 2_000_000_000, capped)
    ensures AcceptedToken("", nodes) <==> nodes != []
  {
  }
}
