/**
 `POST /pull-updates` of the sync hub: the newest-to-oldest scan of the log, the response it
 writes, and what a client that applies the response ends up holding.
 */
module PullUpdates {
  import opened Wrappers
  import opened Wal
  import opened LengthDelimited

  type Bytes = seq<byte>

  /** A revision field of the request, as sent. */
  datatype Revision = Empty | Unparsable | Number(n: nat)

  datatype Selector = All | Only(pageIds: set<nat>) | Malformed

  datatype Request = Request(zstd: bool, serverRevision: Revision, clientRevision: Revision, selector: Selector)

  datatype Header = Header(serverRevision: nat, dbSize: nat)

  /** The sync protocol numbers pages from 0, the log from 1. */
  datatype PageData = PageData(pageId: nat, page: Bytes)

  datatype PullError = ZstdUnsupported | BadSelector | NoSuchFrame(frameNo: nat)

  /** The message encodings, which belong to the protocol library. */
  datatype Codec = Codec(encodeHeader: Header -> Bytes, decodeHeader: Bytes -> Option<Header>,
                         encodePage: PageData -> Bytes, decodePage: Bytes -> Option<PageData>)

  ghost predicate Faithful(codec: Codec) {
    && (forall h :: codec.decodeHeader(codec.encodeHeader(h)) == Some(h))
    && (forall p :: codec.decodePage(codec.encodePage(p)) == Some(p))
  }

  function ServerRevision(req: Request, maxFrame: nat): nat {
    if req.serverRevision.Number? then req.serverRevision.n else maxFrame
  }

  function ClientRevision(req: Request): nat {
    if req.clientRevision.Number? then req.clientRevision.n else 0
  }

  predicate Wanted(selector: Selector, p: PageNo) {
    selector.Only? ==> p - 1 in selector.pageIds
  }

  /** The size the header carries: that of the newest frame, whatever revision was asked for. */
  function HeaderSize(wal: seq<Frame<Bytes>>): nat {
    if 0 < |wal| then wal[|wal| - 1].dbSize else 0
  }

  // ----- what is sent -----

  /** The frames whose pages are sent, oldest first: every wanted frame of `c + 1 .. s` that no
      later frame up to `s` overwrites. */
  function SentFrames(wal: seq<Frame<Bytes>>, c: nat, s: nat, selector: Selector): (sent: seq<nat>)
    requires s <= |wal|
    ensures forall i :: 0 <= i < |sent| ==> c < sent[i] <= s
    ensures forall i, j :: 0 <= i < j < |sent| ==> sent[i] < sent[j]
    decreases s - c
  {
    if s <= c then []
    else
      var later := SentFrames(wal, c + 1, s, selector);
      var p := wal[c].pageNo;
      if Wanted(selector, p) && LastFrame(wal, p, c + 1, s) == 0 then [c + 1] + later else later
  }

  /** The frame as sent: the page number shifted to the protocol's, and the page contents. */
  function PageOf(frame: Frame<Bytes>): PageData {
    PageData(frame.pageNo - 1, frame.data)
  }

  function PagesOf(wal: seq<Frame<Bytes>>, frames: seq<nat>): (pages: seq<PageData>)
    requires forall i :: 0 <= i < |frames| ==> 0 < frames[i] <= |wal|
  {
    if frames == [] then [] else [PageOf(wal[frames[0] - 1])] + PagesOf(wal, frames[1..])
  }

  /** Frame `f` is the newest frame of a selected page among `c + 1 .. s`. */
  predicate SentFor(wal: seq<Frame<Bytes>>, c: nat, s: nat, selector: Selector, f: int)
    requires s <= |wal|
  {
    c < f <= s && Wanted(selector, wal[f - 1].pageNo) && LastFrame(wal, wal[f - 1].pageNo, c, s) == f
  }

  lemma {:induction false} SentMembers(wal: seq<Frame<Bytes>>, c: nat, s: nat, selector: Selector, f: int)
    requires s <= |wal|
    ensures f in SentFrames(wal, c, s, selector) <==> SentFor(wal, c, s, selector, f)
    decreases s - c
  {
    hide LastFrame;
    if c < s {
      var sent, later := SentFrames(wal, c, s, selector), SentFrames(wal, c + 1, s, selector);
      SentMembers(wal, c + 1, s, selector, f);
      if c < f <= s {
        LastFrameHead(wal, wal[f - 1].pageNo, c, s);
      }
      assert sent != later ==> sent == [c + 1] + later;
      assert f in sent <==> f in later || (f == c + 1 && sent != later);
    }
  }

  /** Each selected page changed in the range is sent once, with its last contents, in the order
      of those last frames; nothing else is sent. */
  lemma {:induction false} SentFramesMeaning(wal: seq<Frame<Bytes>>, c: nat, s: nat, selector: Selector)
    requires s <= |wal|
    ensures
      var sent := SentFrames(wal, c, s, selector);
      && (forall i, j :: 0 <= i < j < |sent| ==>
            sent[i] < sent[j] && wal[sent[i] - 1].pageNo != wal[sent[j] - 1].pageNo)
      && (forall f :: f in sent <==> SentFor(wal, c, s, selector, f))
  {
    var sent := SentFrames(wal, c, s, selector);
    forall f
      ensures f in sent <==> SentFor(wal, c, s, selector, f)
    {
      SentMembers(wal, c, s, selector, f);
    }
    forall i | 0 <= i < |sent|
      ensures LastFrame(wal, wal[sent[i] - 1].pageNo, c, s) == sent[i]
    {
      assert sent[i] in sent;
    }
  }

  function Reversed<T>(s: seq<T>): seq<T> {
    if s == [] then [] else [s[|s| - 1]] + Reversed(s[..|s| - 1])
  }

  /** What the scan has done when every frame after `f` has been looked at. */
  ghost predicate Scanned(
    wal: seq<Frame<Bytes>>, f: nat, s: nat, selector: Selector, seen: set<PageNo>, pages: seq<PageData>)
    requires f <= s <= |wal|
  {
    Seen(wal, f, s, selector, seen) && Reversed(pages) == PagesOf(wal, SentFrames(wal, f, s, selector))
  }

  ghost predicate Seen(wal: seq<Frame<Bytes>>, f: nat, s: nat, selector: Selector, seen: set<PageNo>)
    requires f <= s <= |wal|
  {
    forall p :: p in seen <==> Wanted(selector, p) && LastFrame(wal, p, f, s) != 0
  }

  lemma ScanStep(wal: seq<Frame<Bytes>>, f: nat, s: nat, selector: Selector, seen: set<PageNo>, pages: seq<PageData>)
    requires 0 < f <= s <= |wal| && Scanned(wal, f, s, selector, seen, pages)
    ensures
      var frame := wal[f - 1];
      if frame.pageNo in seen || !Wanted(selector, frame.pageNo) then Scanned(wal, f - 1, s, selector, seen, pages)
      else Scanned(wal, f - 1, s, selector, seen + {frame.pageNo}, pages + [PageOf(frame)])
  {
    var frame := wal[f - 1];
    SeenStep(wal, f, s, selector, seen);
    var more := pages + [PageOf(frame)];
    assert more[..|more| - 1] == pages;
    PagesOfCons(wal, f, SentFrames(wal, f, s, selector));
  }

  lemma SeenStep(wal: seq<Frame<Bytes>>, f: nat, s: nat, selector: Selector, seen: set<PageNo>)
    requires 0 < f <= s <= |wal| && Seen(wal, f, s, selector, seen)
    ensures
      var q := wal[f - 1].pageNo;
      Seen(wal, f - 1, s, selector, if q in seen || !Wanted(selector, q) then seen else seen + {q})
  {
    hide LastFrame;
    forall p: PageNo
      ensures LastFrame(wal, p, f - 1, s) != 0 <==> LastFrame(wal, p, f, s) != 0 || p == wal[f - 1].pageNo
    {
      LastFrameHead(wal, p, f - 1, s);
    }
  }

  lemma {:induction false} PagesOfCons(wal: seq<Frame<Bytes>>, f: nat, later: seq<nat>)
    requires 0 < f <= |wal| && forall i :: 0 <= i < |later| ==> 0 < later[i] <= |wal|
    ensures PagesOf(wal, [f] + later) == [PageOf(wal[f - 1])] + PagesOf(wal, later)
  {
    assert ([f] + later)[1..] == later;
  }

  /** The scan itself: newest frame first, skipping pages already taken and pages not selected. */
  method ScanFrames(
    wal: seq<Frame<Bytes>>, c: nat, s: nat, selector: Selector) returns (r: Result<seq<PageData>, PullError>)
    ensures c < s && |wal| < s ==> r == Err(NoSuchFrame(s))
    ensures c < s <= |wal| ==> r == Ok(PagesOf(wal, SentFrames(wal, c, s, selector)))
    ensures s <= c ==> r == Ok([])
  {
    hide Scanned, SentFrames, PagesOf, Reversed;
    var seen: set<PageNo> := {};
    var pages: seq<PageData> := [];
    var frameNo := s;
    NothingScanned(wal, s, selector);
    while c < frameNo
      invariant c <= frameNo <= s || (s <= c && frameNo == s)
      invariant frameNo < s ==> s <= |wal|
      invariant s <= |wal| ==> Scanned(wal, frameNo, s, selector, seen, pages)
      invariant frameNo == s ==> pages == []
    {
      if |wal| < frameNo {
        return Err(NoSuchFrame(frameNo));
      }
      var frame := wal[frameNo - 1];
      ScanStep(wal, frameNo, s, selector, seen, pages);
      frameNo := frameNo - 1;
      if frame.pageNo in seen {
        continue;
      }
      if selector.Only? && frame.pageNo - 1 !in selector.pageIds {
        continue;
      }
      seen := seen + {frame.pageNo};
      pages := pages + [PageOf(frame)];
    }
    if s <= |wal| {
      AllScanned(wal, frameNo, s, selector, seen, pages);
    }
    r := Ok(Reversed(pages));
  }

  lemma NothingScanned(wal: seq<Frame<Bytes>>, s: nat, selector: Selector)
    ensures s <= |wal| ==> Scanned(wal, s, s, selector, {}, [])
    ensures Reversed<PageData>([]) == []
  {
  }

  lemma {:induction false} AllScanned(
    wal: seq<Frame<Bytes>>, c: nat, s: nat, selector: Selector, seen: set<PageNo>, pages: seq<PageData>)
    requires c <= s <= |wal| && Scanned(wal, c, s, selector, seen, pages)
    ensures Reversed(pages) == PagesOf(wal, SentFrames(wal, c, s, selector))
  {
  }

  // ----- the response -----

  function Encoded(codec: Codec, pages: seq<PageData>): seq<Bytes> {
    seq(|pages|, i requires 0 <= i < |pages| => codec.encodePage(pages[i]))
  }

  function Messages(codec: Codec, header: Header, pages: seq<PageData>): seq<Bytes> {
    [codec.encodeHeader(header)] + Encoded(codec, pages)
  }

  lemma {:induction false} ConcatenatedSnoc(messages: seq<Bytes>, last: Bytes)
    ensures Concatenated(messages + [last]) == Concatenated(messages) + LengthPrefixed(last)
  {
    if messages == [] {
      assert [last][1..] == [];
    } else {
      ConcatenatedSnoc(messages[1..], last);
      assert (messages + [last])[1..] == messages[1..] + [last];
    }
  }

  /** The answer to a request, in terms of the frames that are sent. */
  function Response(codec: Codec, wal: seq<Frame<Bytes>>, req: Request): Result<Bytes, PullError> {
    var c, s := ClientRevision(req), ServerRevision(req, |wal|);
    if req.zstd then Err(ZstdUnsupported)
    else if req.selector.Malformed? then Err(BadSelector)
    else if s <= c then Ok(Concatenated(Messages(codec, Header(s, HeaderSize(wal)), [])))
    else if |wal| < s then Err(NoSuchFrame(s))
    else Ok(Concatenated(Messages(codec, Header(s, HeaderSize(wal)),
        PagesOf(wal, SentFrames(wal, c, s, req.selector)))))
  }

  method HandlePullUpdates(codec: Codec, wal: seq<Frame<Bytes>>, req: Request) returns (r: Result<Bytes, PullError>)
    ensures r == Response(codec, wal, req)
  {
    hide SentFrames, PagesOf, Messages, Concatenated;
    if req.zstd {
      return Err(ZstdUnsupported);
    }
    var s := ServerRevision(req, |wal|);
    var c := ClientRevision(req);
    if req.selector.Malformed? {
      return Err(BadSelector);
    }
    var scan := ScanFrames(wal, c, s, req.selector);
    if scan.Err? {
      return Err(scan.error);
    }
    var pages := scan.value;
    var header := Header(s, HeaderSize(wal));
    var body := new Output();
    body.EncodeLengthDelimited(codec.encodeHeader(header));
    HeaderFirst(codec, header);
    for i := 0 to |pages|
      invariant body.bytes == Concatenated(Messages(codec, header, pages[..i]))
    {
      body.EncodeLengthDelimited(codec.encodePage(pages[i]));
      PageNext(codec, header, pages, i);
    }
    assert pages[..|pages|] == pages;
    r := Ok(body.bytes);
  }

  lemma HeaderFirst(codec: Codec, header: Header)
    ensures Concatenated(Messages(codec, header, [])) == LengthPrefixed(codec.encodeHeader(header))
  {
    var message := codec.encodeHeader(header);
    assert Messages(codec, header, []) == [] + [message];
    ConcatenatedSnoc([], message);
  }

  lemma PageNext(codec: Codec, header: Header, pages: seq<PageData>, i: nat)
    requires i < |pages|
    ensures Concatenated(Messages(codec, header, pages[..i + 1]))
            == Concatenated(Messages(codec, header, pages[..i])) + LengthPrefixed(codec.encodePage(pages[i]))
  {
    var message := codec.encodePage(pages[i]);
    assert Messages(codec, header, pages[..i + 1]) == Messages(codec, header, pages[..i]) + [message];
    ConcatenatedSnoc(Messages(codec, header, pages[..i]), message);
  }

  // ----- the client -----

  function ApplyPages(db: map<PageNo, Bytes>, pages: seq<PageData>): map<PageNo, Bytes>
    decreases |pages|
  {
    if |pages| == 0 then db
    else ApplyPages(db[pages[0].pageId + 1 := pages[0].page], pages[1..])
  }

  lemma {:induction false} ApplyPagesCons(db: map<PageNo, Bytes>, first: PageData, others: seq<PageData>)
    ensures ApplyPages(db, [first] + others) == ApplyPages(db[first.pageId + 1 := first.page], others)
  {
    assert ([first] + others)[1..] == others;
  }

  function DecodePages(codec: Codec, messages: seq<Bytes>): Option<seq<PageData>> {
    if messages == [] then Some([])
    else
      match (codec.decodePage(messages[0]), DecodePages(codec, messages[1..]))
      case (Some(page), Some(others)) => Some([page] + others)
      case _ => None
  }

  /** A received body: its header, and the client's pages after writing the sent ones. */
  function Receive(codec: Codec, body: Bytes, db: map<PageNo, Bytes>): Option<(Header, map<PageNo, Bytes>)> {
    match DecodeAll(body)
    case None => None
    case Some(messages) =>
      if messages == [] then None
      else
        match (codec.decodeHeader(messages[0]), DecodePages(codec, messages[1..]))
        case (Some(header), Some(pages)) => Some((header, ApplyPages(db, pages)))
        case _ => None
  }

  lemma {:induction false} DecodeEncodedPages(codec: Codec, pages: seq<PageData>)
    requires Faithful(codec)
    ensures DecodePages(codec, Encoded(codec, pages)) == Some(pages)
  {
    if pages != [] {
      assert Encoded(codec, pages)[1..] == Encoded(codec, pages[1..]);
      DecodeEncodedPages(codec, pages[1..]);
      assert pages == [pages[0]] + pages[1..];
    }
  }

  lemma {:induction false} ReceiveIsApply(codec: Codec, header: Header, pages: seq<PageData>, db: map<PageNo, Bytes>)
    requires Faithful(codec)
    ensures Receive(codec, Concatenated(Messages(codec, header, pages)), db) == Some((header, ApplyPages(db, pages)))
  {
    BodyRoundTrip(Messages(codec, header, pages));
    assert Messages(codec, header, pages)[1..] == Encoded(codec, pages);
    DecodeEncodedPages(codec, pages);
  }

  /** A client that applies the response for `c .. s`. */
  function Updated(
    db: map<PageNo, Bytes>, wal: seq<Frame<Bytes>>, c: nat, s: nat, selector: Selector): map<PageNo, Bytes>
    requires s <= |wal|
  {
    ApplyPages(db, PagesOf(wal, SentFrames(wal, c, s, selector)))
  }

  function Lookup<K, V>(m: map<K, V>, k: K): Option<V> {
    if k in m then Some(m[k]) else None
  }

  lemma SameLookups<K, V>(a: map<K, V>, b: map<K, V>)
    requires forall k :: Lookup(a, k) == Lookup(b, k)
    ensures a == b
  {
    forall k
      ensures k in a <==> k in b
      ensures k in a ==> a[k] == b[k]
    {
      assert Lookup(a, k) == Lookup(b, k);
    }
  }

  /** What the response does to one page of any client, in terms of the log alone. */
  function UpdatedPage(
    held: Option<Bytes>, wal: seq<Frame<Bytes>>, c: nat, s: nat, selector: Selector, p: PageNo): Option<Bytes>
    requires s <= |wal|
  {
    var f := LastFrame(wal, p, c, s);
    if f != 0 && Wanted(selector, p) then Some(wal[f - 1].data) else held
  }

  lemma {:induction false} UpdateIsLookup(
    db: map<PageNo, Bytes>, wal: seq<Frame<Bytes>>, c: nat, s: nat, selector: Selector, p: PageNo)
    requires s <= |wal|
    ensures Lookup(Updated(db, wal, c, s, selector), p) == UpdatedPage(Lookup(db, p), wal, c, s, selector, p)
    decreases s - c
  {
    if c < s {
      var held := UpdatedHead(db, wal, c, s, selector);
      UpdateIsLookup(held, wal, c + 1, s, selector, p);
      UpdatedPageHead(db, held, wal, c, s, selector, p);
    }
  }

  lemma {:induction false} UpdatedPageHead(
    db: map<PageNo, Bytes>, held: map<PageNo, Bytes>, wal: seq<Frame<Bytes>>, c: nat, s: nat,
    selector: Selector, p: PageNo)
    requires c < s <= |wal|
    requires
      var q := wal[c].pageNo;
      held == if Wanted(selector, q) && LastFrame(wal, q, c + 1, s) == 0 then db[q := wal[c].data] else db
    ensures UpdatedPage(Lookup(held, p), wal, c + 1, s, selector, p)
        == UpdatedPage(Lookup(db, p), wal, c, s, selector, p)
  {
    LastFrameHead(wal, p, c, s);
  }

  /** The oldest frame of a range is written first, or not at all. */
  lemma UpdatedHead(
    db: map<PageNo, Bytes>, wal: seq<Frame<Bytes>>, c: nat, s: nat, selector: Selector)
    returns (held: map<PageNo, Bytes>)
    requires c < s <= |wal|
    ensures
      var p := wal[c].pageNo;
      held == if Wanted(selector, p) && LastFrame(wal, p, c + 1, s) == 0 then db[p := wal[c].data] else db
    ensures Updated(db, wal, c, s, selector) == Updated(held, wal, c + 1, s, selector)
  {
    var later, frame := SentFrames(wal, c + 1, s, selector), wal[c];
    if Wanted(selector, frame.pageNo) && LastFrame(wal, frame.pageNo, c + 1, s) == 0 {
      held := db[frame.pageNo := frame.data];
      ApplyFirst(db, wal, c, later);
    } else {
      held := db;
    }
  }

  lemma ApplyFirst(db: map<PageNo, Bytes>, wal: seq<Frame<Bytes>>, c: nat, later: seq<nat>)
    requires c < |wal| && forall i :: 0 <= i < |later| ==> 0 < later[i] <= |wal|
    ensures ApplyPages(db, PagesOf(wal, [c + 1] + later))
        == ApplyPages(db[wal[c].pageNo := wal[c].data], PagesOf(wal, later))
  {
    PagesOfCons(wal, c + 1, later);
    ApplyPagesCons(db, PageOf(wal[c]), PagesOf(wal, later));
  }

  lemma ReplayLookup(base: map<PageNo, Bytes>, wal: seq<Frame<Bytes>>, n: nat, p: PageNo)
    requires n <= |wal|
    ensures Lookup(Replay(base, wal, n), p) == UpdatedPage(Lookup(base, p), wal, 0, n, All, p)
    ensures Lookup(Replay(base, wal, n), p) == ReadPage(base, wal, n, p)
  {
    ReplayIsLookup(base, wal, 0, n, p);
  }

  /** The pull refines replay.  The client may already be past the revision `c` it names (a response
      applied but not recorded): whatever it holds, `held` in `c .. s`, the selected pages come to
      revision `s` and the others stay as they were. */
  lemma PullReachesRevision(
    base: map<PageNo, Bytes>, wal: seq<Frame<Bytes>>, c: nat, held: nat, s: nat, selector: Selector)
    requires c <= held <= s <= |wal|
    ensures forall p: PageNo ::
              Lookup(Updated(Replay(base, wal, held), wal, c, s, selector), p) ==
              Lookup(if Wanted(selector, p) then Replay(base, wal, s) else Replay(base, wal, held), p)
    ensures selector.All? ==> Updated(Replay(base, wal, held), wal, c, s, selector) == Replay(base, wal, s)
  {
    forall p: PageNo
      ensures Lookup(Updated(Replay(base, wal, held), wal, c, s, selector), p) ==
              Lookup(if Wanted(selector, p) then Replay(base, wal, s) else Replay(base, wal, held), p)
    {
      PulledPage(base, wal, c, held, s, selector, p);
    }
    if selector.All? {
      SameLookups(Updated(Replay(base, wal, held), wal, c, s, selector), Replay(base, wal, s));
    }
  }

  lemma PulledPage(
    base: map<PageNo, Bytes>, wal: seq<Frame<Bytes>>, c: nat, held: nat, s: nat, selector: Selector, p: PageNo)
    requires c <= held <= s <= |wal|
    ensures Lookup(Updated(Replay(base, wal, held), wal, c, s, selector), p) ==
            Lookup(if Wanted(selector, p) then Replay(base, wal, s) else Replay(base, wal, held), p)
  {
    UpdateIsLookup(Replay(base, wal, held), wal, c, s, selector, p);
    ReplayLookup(base, wal, s, p);
    ReplayLookup(base, wal, held, p);
    LastFrameSplits(wal, p, 0, held, s);
    LastFrameSplits(wal, p, c, held, s);
    LastFrameSplits(wal, p, 0, c, held);
  }

  /** Two pulls with one selector do to any client what the single pull over both ranges does. */
  lemma PullsCompose(db: map<PageNo, Bytes>, wal: seq<Frame<Bytes>>, c: nat, m: nat, s: nat, selector: Selector)
    requires c <= m <= s <= |wal|
    ensures Updated(Updated(db, wal, c, m, selector), wal, m, s, selector) == Updated(db, wal, c, s, selector)
  {
    hide Updated, LastFrame, Wanted;
    var half := Updated(db, wal, c, m, selector);
    forall p: PageNo
      ensures Lookup(Updated(half, wal, m, s, selector), p) == Lookup(Updated(db, wal, c, s, selector), p)
    {
      UpdateIsLookup(db, wal, c, s, selector, p);
      UpdateIsLookup(db, wal, c, m, selector, p);
      UpdateIsLookup(half, wal, m, s, selector, p);
      LastFrameSplits(wal, p, c, m, s);
    }
    SameLookups(Updated(half, wal, m, s, selector), Updated(db, wal, c, s, selector));
  }

  // ----- sizes -----

  /** A page the database has gained since commit `c`, however it shrank and grew between. */
  lemma {:induction false} GrowthSinceCommit(size0: nat, wal: seq<Frame<Bytes>>, c: nat, s: nat, p: PageNo)
    requires c <= s <= |wal| && IsCommit(wal, c) && IsCommit(wal, s) && GrowthWritten(size0, wal)
    requires p <= SizeAt(size0, wal, s)
    ensures p <= SizeAt(size0, wal, c) || LastFrame(wal, p, c, s) != 0
  {
    if c < s {
      var m := PrevCommit(wal, s);
      LastFrameSplits(wal, p, c, m, s);
      if LastFrame(wal, p, m, s) == 0 {
        GrowthSinceCommit(size0, wal, c, m, p);
      }
    }
  }

  lemma {:induction false} CommitLookup(base: map<PageNo, Bytes>, size0: nat, wal: seq<Frame<Bytes>>, n: nat, p: PageNo)
    requires IsCommit(wal, n) && Complete(base, size0) && GrowthWritten(size0, wal)
    ensures Lookup(TxReplay(base, wal, n), p) == if p <= SizeAt(size0, wal, n) then ReadPage(base, wal, n, p) else None
    ensures p <= SizeAt(size0, wal, n) ==> ReadPage(base, wal, n, p).Some?
  {
    TransactionsAreReads(base, size0, wal, n);
  }

  lemma {:induction false} UpdatedAtCommit(
    base: map<PageNo, Bytes>, size0: nat, wal: seq<Frame<Bytes>>, c: nat, s: nat, p: PageNo)
    requires c <= s <= |wal| && IsCommit(wal, c) && IsCommit(wal, s)
    requires Complete(base, size0) && GrowthWritten(size0, wal) && p <= SizeAt(size0, wal, s)
    ensures Lookup(Updated(TxReplay(base, wal, c), wal, c, s, All), p) == Lookup(TxReplay(base, wal, s), p)
  {
    UpdateIsLookup(TxReplay(base, wal, c), wal, c, s, All, p);
    ReadPageSplits(base, wal, c, s, p);
    CommitLookup(base, size0, wal, s, p);
    GrowthSinceCommit(size0, wal, c, s, p);
    if LastFrame(wal, p, c, s) == 0 {
      CommitLookup(base, size0, wal, c, p);
    }
  }

  lemma ReadPageSplits(base: map<PageNo, Bytes>, wal: seq<Frame<Bytes>>, c: nat, s: nat, p: PageNo)
    requires c <= s <= |wal|
    ensures ReadPage(base, wal, s, p) == UpdatedPage(ReadPage(base, wal, c, p), wal, c, s, All, p)
  {
    LastFrameSplits(wal, p, 0, c, s);
  }

  lemma {:induction false} UpdatedDomain(
    base: map<PageNo, Bytes>, size0: nat, wal: seq<Frame<Bytes>>, c: nat, s: nat, p: PageNo)
    requires c <= s <= |wal| && IsCommit(wal, c)
    requires Complete(base, size0) && GrowthWritten(size0, wal)
    ensures Lookup(Updated(TxReplay(base, wal, c), wal, c, s, All), p).Some?
            <==> p <= SizeAt(size0, wal, c) || LastFrame(wal, p, c, s) != 0
  {
    CommitLookup(base, size0, wal, c, p);
    UpdateIsLookup(TxReplay(base, wal, c), wal, c, s, All, p);
  }

  /** No page the client holds or is sent lies above the size at `s` and within the header's size. */
  ghost predicate NothingBetween(size0: nat, wal: seq<Frame<Bytes>>, c: nat, s: nat)
    requires c <= s <= |wal|
  {
    forall p: PageNo :: SizeAt(size0, wal, s) < p <= HeaderSize(wal) ==>
      SizeAt(size0, wal, c) < p && LastFrame(wal, p, c, s) == 0
  }

  /** With `c` and `s` commits, cutting the client to the header's size gives the database at `s`
      exactly when that size, taken from the newest frame, is no smaller than the size at `s` and
      nothing lies between the two. */
  lemma {:induction false} HeaderSizeExact(base: map<PageNo, Bytes>, size0: nat, wal: seq<Frame<Bytes>>, c: nat, s: nat)
    requires c <= s <= |wal| && IsCommit(wal, c) && IsCommit(wal, s)
    requires Complete(base, size0) && GrowthWritten(size0, wal)
    ensures
      Cut(Updated(TxReplay(base, wal, c), wal, c, s, All), HeaderSize(wal)) == TxReplay(base, wal, s)
      <==> SizeAt(size0, wal, s) <= HeaderSize(wal) && NothingBetween(size0, wal, c, s)
  {
    var at, size := TxReplay(base, wal, s), SizeAt(size0, wal, s);
    var after := Updated(TxReplay(base, wal, c), wal, c, s, All);
    var cut := Cut(after, HeaderSize(wal));
    TransactionsAreReads(base, size0, wal, s);
    if size <= HeaderSize(wal) && NothingBetween(size0, wal, c, s) {
      forall p: PageNo
        ensures Lookup(cut, p) == Lookup(at, p)
      {
        UpdatedDomain(base, size0, wal, c, s, p);
        if p <= size {
          UpdatedAtCommit(base, size0, wal, c, s, p);
        }
      }
      SameLookups(cut, at);
    } else if size <= HeaderSize(wal) {
      var p: PageNo :| size < p <= HeaderSize(wal) && !(SizeAt(size0, wal, c) < p && LastFrame(wal, p, c, s) == 0);
      UpdatedDomain(base, size0, wal, c, s, p);
      assert p in cut && p !in at;
    } else {
      var last: PageNo := size;
      assert last in at && last !in cut;
    }
  }

  /** The condition can fail: after a commit of two pages and one that shrinks to one page, a pull of
      the first commit is cut to one page. */
  lemma {:induction false} HeaderSizeCanBeWrong(a: Bytes)
    ensures
      var wal := [Frame(1, 0, a), Frame(2, 2, a), Frame(1, 1, a)];
      && IsCommit(wal, 2) && Complete<Bytes>(map[], 0) && GrowthWritten(0, wal)
      && Cut(Updated(TxReplay(map[], wal, 0), wal, 0, 2, All), HeaderSize(wal)) != TxReplay(map[], wal, 2)
  {
    var wal := [Frame(1, 0, a), Frame(2, 2, a), Frame(1, 1, a)];
    var none: map<PageNo, Bytes> := map[];
    assert PrevCommit(wal, 2) == 0 && PrevCommit(wal, 3) == 2;
    assert LastFrame(wal, 1, 0, 2) == 1 by { assert LastFrame(wal, 1, 0, 1) == 1; }
    forall n, p: PageNo | 0 < n <= 3 && IsCommit(wal, n) && SizeAt(0, wal, PrevCommit(wal, n)) < p <= SizeAt(0, wal, n)
      ensures LastFrame(wal, p, PrevCommit(wal, n), n) != 0
    {
      assert n == 2 && (p == 1 || p == 2);
    }
    HeaderSizeExact(none, 0, wal, 0, 2);
  }

  // ----- any request, through the bytes -----

  /** What a client asks for: the server revision it names or else the newest, from the revision it
      says it has or else from the start. */
  ghost predicate Asks(req: Request, maxFrame: nat, c: nat, s: nat) {
    && s == (match req.serverRevision case Number(n) => n case _ => maxFrame)
    && c == (match req.clientRevision case Number(n) => n case _ => 0)
  }

  ghost predicate Selects(selector: Selector, p: PageNo) {
    match selector
    case All => true
    case Only(ids) => p - 1 in ids
    case Malformed => false
  }

  /** A request is refused only for its encoding, its selector, or a newer revision the log lacks. */
  lemma RefusalExact(codec: Codec, wal: seq<Frame<Bytes>>, req: Request, c: nat, s: nat)
    requires Asks(req, |wal|, c, s)
    ensures Response(codec, wal, req).Err? <==> req.zstd || req.selector.Malformed? || (c < s && |wal| < s)
    ensures
      match Response(codec, wal, req)
      case Err(ZstdUnsupported) => req.zstd
      case Err(BadSelector) => !req.zstd && req.selector.Malformed?
      case Err(NoSuchFrame(f)) => !req.zstd && !req.selector.Malformed? && |wal| < f == s
      case Ok(_) => true
  {
  }

  /** The body of an answer decodes to a header naming the revision asked for and the newest frame's
      size; the pages in it bring a client that holds any revision from the one it named up to that
      revision on the selected pages, and leave the others as they were. */
  lemma {:induction false} RequestReachesRevision(
    codec: Codec, base: map<PageNo, Bytes>, wal: seq<Frame<Bytes>>, req: Request, c: nat, held: nat, s: nat)
    requires Faithful(codec) && !req.zstd && !req.selector.Malformed?
    requires Asks(req, |wal|, c, s) && c <= held <= s <= |wal|
    ensures Response(codec, wal, req).Ok?
    ensures
      match Receive(codec, Response(codec, wal, req).value, Replay(base, wal, held))
      case None => false
      case Some((header, after)) =>
        && header == Header(s, if wal == [] then 0 else wal[|wal| - 1].dbSize)
        && forall p: PageNo ::
             Lookup(after, p) ==
             Lookup(if Selects(req.selector, p) then Replay(base, wal, s) else Replay(base, wal, held), p)
  {
    hide Receive, Updated, Replay;
    AnswerIsUpdate(codec, wal, req, c, s, Replay(base, wal, held));
    PullReachesRevision(base, wal, c, held, s, req.selector);
    assert forall p: PageNo :: Selects(req.selector, p) == Wanted(req.selector, p);
  }

  lemma {:induction false} AnswerIsUpdate(
    codec: Codec, wal: seq<Frame<Bytes>>, req: Request, c: nat, s: nat, db: map<PageNo, Bytes>)
    requires Faithful(codec) && !req.zstd && !req.selector.Malformed?
    requires Asks(req, |wal|, c, s) && s <= |wal|
    ensures Response(codec, wal, req).Ok?
    ensures Receive(codec, Response(codec, wal, req).value, db)
            == Some((Header(s, HeaderSize(wal)), Updated(db, wal, c, s, req.selector)))
  {
    hide Receive, Messages, Concatenated;
    ReceiveIsApply(codec, Header(s, HeaderSize(wal)), PagesOf(wal, SentFrames(wal, c, s, req.selector)), db);
  }

  /** A client that names the revision asked for or a later one is sent no page. */
  lemma {:induction false} NothingNewer(
    codec: Codec, wal: seq<Frame<Bytes>>, req: Request, c: nat, s: nat, db: map<PageNo, Bytes>)
    requires Faithful(codec) && !req.zstd && !req.selector.Malformed? && Asks(req, |wal|, c, s) && s <= c
    ensures Response(codec, wal, req).Ok?
    ensures Receive(codec, Response(codec, wal, req).value, db) == Some((Header(s, HeaderSize(wal)), db))
  {
    hide Receive, Messages, Concatenated;
    ReceiveIsApply(codec, Header(s, HeaderSize(wal)), [], db);
  }

  // ----- a whole history of pulls -----

  /** What a client keeps between pulls: its pages, and the revision the last answer said they are at. */
  datatype Client = Client(revision: nat, pages: map<PageNo, Bytes>)

  /** One pull of everything newer, the client naming its own revision unless it has none yet; the body
      is decoded, written and cut to the size in the header, and the revision in the header recorded. */
  function Pull(codec: Codec, wal: seq<Frame<Bytes>>, client: Client): Option<Client> {
    var named := if client.revision == 0 then Empty else Number(client.revision);
    match Response(codec, wal, Request(false, Empty, named, All))
    case Err(_) => None
    case Ok(body) =>
      match Receive(codec, body, client.pages)
      case None => None
      case Some((header, after)) => Some(Client(header.serverRevision, Cut(after, header.dbSize)))
  }

  /** The last state of the log a client has pulled from; before the first pull, an empty one. */
  function Latest(wals: seq<seq<Frame<Bytes>>>): seq<Frame<Bytes>> {
    if wals == [] then [] else wals[|wals| - 1]
  }

  /** The client after pulling from each state of the log in turn. */
  function PullAll(codec: Codec, base: map<PageNo, Bytes>, wals: seq<seq<Frame<Bytes>>>): Option<Client> {
    if wals == [] then Some(Client(0, base))
    else
      match PullAll(codec, base, wals[..|wals| - 1])
      case None => None
      case Some(client) => Pull(codec, Latest(wals), client)
  }

  predicate Growing(wals: seq<seq<Frame<Bytes>>>) {
    forall k :: 0 < k < |wals| ==> wals[k - 1] <= wals[k]
  }

  /** A log that ends in a commit and writes the pages each growing commit adds. */
  ghost predicate Settled(size0: nat, wal: seq<Frame<Bytes>>) {
    0 < |wal| && IsCommit(wal, |wal|) && GrowthWritten(size0, wal)
  }

  /** A client at one commit that pulls from a longer settled log is then at its newest frame, in the
      revision it records and in its pages. */
  lemma {:induction false} PullNewest(
    codec: Codec, base: map<PageNo, Bytes>, size0: nat, before: seq<Frame<Bytes>>, wal: seq<Frame<Bytes>>)
    requires Faithful(codec) && Complete(base, size0)
    requires before <= wal && IsCommit(before, |before|) && Settled(size0, wal)
    ensures Pull(codec, wal, Client(|before|, TxReplay(base, before, |before|)))
            == Some(Client(|wal|, TxReplay(base, wal, |wal|)))
  {
    var c := |before|;
    TxReplayOfPrefix(base, before, wal, c);
    PullIsUpdate(codec, wal, Client(c, TxReplay(base, wal, c)));
    NewestSizeIsRight(size0, wal, c);
    HeaderSizeExact(base, size0, wal, c, |wal|);
  }

  /** What arrives, through the bytes of the response, is the update, the newest frame's number and its
      size. */
  lemma {:induction false} PullIsUpdate(codec: Codec, wal: seq<Frame<Bytes>>, client: Client)
    requires Faithful(codec)
    ensures Pull(codec, wal, client)
            == Some(Client(|wal|, Cut(Updated(client.pages, wal, client.revision, |wal|, All), HeaderSize(wal))))
  {
    hide Response, Receive, Updated, Cut;
    var named := if client.revision == 0 then Empty else Number(client.revision);
    AnswerIsUpdate(codec, wal, Request(false, Empty, named, All), client.revision, |wal|, client.pages);
  }

  lemma NewestSizeIsRight(size0: nat, wal: seq<Frame<Bytes>>, c: nat)
    requires c <= |wal| && Settled(size0, wal)
    ensures SizeAt(size0, wal, |wal|) == HeaderSize(wal) && NothingBetween(size0, wal, c, |wal|)
  {
  }

  /** Any chain of pulls from a growing log, each made when the log ends in a commit, leaves the client
      with exactly the database a transaction-by-transaction replay of the log gives, and with the
      number of its newest frame. */
  lemma {:induction false} ChainOfPulls(
    codec: Codec, base: map<PageNo, Bytes>, size0: nat, wals: seq<seq<Frame<Bytes>>>)
    requires Faithful(codec) && Complete(base, size0)
    requires Growing(wals) && forall k :: 0 <= k < |wals| ==> Settled(size0, wals[k])
    ensures IsCommit(Latest(wals), |Latest(wals)|)
    ensures PullAll(codec, base, wals) == Some(Client(|Latest(wals)|, TxReplay(base, Latest(wals), |Latest(wals)|)))
  {
    if wals != [] {
      var earlier := wals[..|wals| - 1];
      ChainOfPulls(codec, base, size0, earlier);
      PullNewest(codec, base, size0, Latest(earlier), Latest(wals));
    }
  }

  lemma {:induction false} TxReplayOfPrefix(
    base: map<PageNo, Bytes>, wal: seq<Frame<Bytes>>, more: seq<Frame<Bytes>>, n: nat)
    requires wal <= more && n <= |wal| && IsCommit(wal, n)
    ensures IsCommit(more, n) && TxReplay(base, wal, n) == TxReplay(base, more, n)
  {
    if n > 0 {
      var m := PrevCommit(wal, n);
      var m' := PrevCommit(more, n);
      assert m == m' by {
        assert IsCommit(more, m) && IsCommit(wal, m');
      }
      TxReplayOfPrefix(base, wal, more, m);
      ReplayOfPrefix(TxReplay(base, wal, m), wal, more, m, n);
    }
  }
}
