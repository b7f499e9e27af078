/**
 The write-ahead log the sync hub serves, and three readings of it: replaying frames in order,
 SQLite's reader algorithm ("Database File Format", section 4.5), and replaying whole
 transactions with the truncation each commit asks for.

 Frames are numbered from 1, so frame `f` is `wal[f - 1]`.  A frame whose `dbSize` is not zero is
 a commit frame and gives the size of the database in pages (section 4.1).
 */
module Wal {
  import opened Wrappers

  type PageNo = n: int | 1 <= n witness 1

  datatype Frame<D> = Frame(pageNo: PageNo, dbSize: nat, data: D)

  /** Frames `c + 1 .. n` written over `start`, oldest first. */
  function ReplayFrom<D>(start: map<PageNo, D>, wal: seq<Frame<D>>, c: nat, n: nat): map<PageNo, D>
    requires n <= |wal|
  {
    if n <= c then start
    else ReplayFrom(start, wal, c, n - 1)[wal[n - 1].pageNo := wal[n - 1].data]
  }

  /** The pages visible at revision `n`, sizes ignored. */
  function Replay<D>(base: map<PageNo, D>, wal: seq<Frame<D>>, n: nat): map<PageNo, D>
    requires n <= |wal|
  {
    ReplayFrom(base, wal, 0, n)
  }

  /** The newest frame of page `p` among `c + 1 .. n`, or 0. */
  function LastFrame<D>(wal: seq<Frame<D>>, p: PageNo, c: nat, n: nat): (f: nat)
    requires n <= |wal|
    ensures f == 0 || (c < f <= n && wal[f - 1].pageNo == p)
  {
    if n <= c then 0
    else if wal[n - 1].pageNo == p then n
    else LastFrame(wal, p, c, n - 1)
  }

  lemma {:induction false} LastFrameIsLast<D>(wal: seq<Frame<D>>, p: PageNo, c: nat, n: nat)
    requires n <= |wal|
    ensures forall i :: c <= i < n && LastFrame(wal, p, c, n) <= i ==> wal[i].pageNo != p
  {
    if c < n && wal[n - 1].pageNo != p {
      LastFrameIsLast(wal, p, c, n - 1);
    }
  }

  /** The value of page `p` after frames `c + 1 .. n`, by lookup instead of replay. */
  lemma {:induction false} ReplayIsLookup<D>(start: map<PageNo, D>, wal: seq<Frame<D>>, c: nat, n: nat, p: PageNo)
    requires n <= |wal|
    ensures
      var f := LastFrame(wal, p, c, n);
      var after := ReplayFrom(start, wal, c, n);
      if f == 0 then (p in after <==> p in start) && (p in after ==> after[p] == start[p])
      else p in after && after[p] == wal[f - 1].data
  {
    if c < n {
      ReplayIsLookup(start, wal, c, n - 1, p);
    }
  }

  /** Section 4.5: a reader at mark `n` takes the newest frame of the page, else the database file. */
  function ReadPage<D>(base: map<PageNo, D>, wal: seq<Frame<D>>, n: nat, p: PageNo): Option<D>
    requires n <= |wal|
  {
    var f := LastFrame(wal, p, 0, n);
    if f != 0 then Some(wal[f - 1].data)
    else if p in base then Some(base[p]) else None
  }

  // ----- sizes and transactions -----

  function Cut<D>(pages: map<PageNo, D>, size: nat): map<PageNo, D> {
    map p | p in pages && p <= size :: pages[p]
  }

  predicate IsCommit<D>(wal: seq<Frame<D>>, n: nat) {
    n == 0 || (n <= |wal| && wal[n - 1].dbSize > 0)
  }

  /** The database size recorded at commit `n`; `size0` is that of the file under the log. */
  function SizeAt<D>(size0: nat, wal: seq<Frame<D>>, n: nat): nat
    requires n <= |wal|
  {
    if n == 0 then size0 else wal[n - 1].dbSize
  }

  /** The newest commit strictly before `n`. */
  function PrevCommit<D>(wal: seq<Frame<D>>, n: nat): (m: nat)
    requires 0 < n <= |wal|
    ensures m < n && IsCommit(wal, m)
    ensures forall k :: m < k < n ==> !IsCommit(wal, k)
  {
    if IsCommit(wal, n - 1) then n - 1 else PrevCommit(wal, n - 1)
  }

  /** The database after the transaction that commits at `n`: each transaction's frames are
      written over the previous database, which is then truncated (or grown) to its size. */
  function TxReplay<D>(base: map<PageNo, D>, wal: seq<Frame<D>>, n: nat): map<PageNo, D>
    requires IsCommit(wal, n)
  {
    if n == 0 then base
    else
      var m := PrevCommit(wal, n);
      Cut(ReplayFrom(TxReplay(base, wal, m), wal, m, n), SizeAt(0, wal, n))
  }

  /** The file holds exactly its `size0` pages. */
  ghost predicate Complete<D>(pages: map<PageNo, D>, size: nat) {
    forall p: PageNo :: p in pages <==> p <= size
  }

  /** Every commit that makes the database larger writes each page it adds. */
  ghost predicate GrowthWritten<D>(size0: nat, wal: seq<Frame<D>>) {
    forall n, p: PageNo ::
      0 < n <= |wal| && IsCommit(wal, n) && SizeAt(size0, wal, PrevCommit(wal, n)) < p <= SizeAt(size0, wal, n)
      ==> LastFrame(wal, p, PrevCommit(wal, n), n) != 0
  }

  /** A reader that never truncates, cut once at the end, sees what transaction replay sees: pages
      dropped by a shrinking commit and brought back by a later one do not leak old contents. */
  lemma {:induction false} TransactionsAreReads<D>(base: map<PageNo, D>, size0: nat, wal: seq<Frame<D>>, n: nat)
    requires IsCommit(wal, n) && Complete(base, size0) && GrowthWritten(size0, wal)
    ensures TxReplay(base, wal, n) == Cut(Replay(base, wal, n), SizeAt(size0, wal, n))
    ensures Complete(TxReplay(base, wal, n), SizeAt(size0, wal, n))
    ensures forall p: PageNo :: p <= SizeAt(size0, wal, n) ==>
              ReadPage(base, wal, n, p) == Some(TxReplay(base, wal, n)[p])
  {
    if n == 0 {
      assert Cut(base, size0) == base;
    } else {
      TransactionsAreReads(base, size0, wal, PrevCommit(wal, n));
      forall p: PageNo | p <= SizeAt(size0, wal, n)
        ensures p in TxReplay(base, wal, n) && p in Replay(base, wal, n)
        ensures TxReplay(base, wal, n)[p] == Replay(base, wal, n)[p]
        ensures ReadPage(base, wal, n, p) == Some(Replay(base, wal, n)[p])
      {
        TransactionPage(base, size0, wal, n, p);
      }
    }
  }

  ghost predicate PageAtCommit<D>(base: map<PageNo, D>, size0: nat, wal: seq<Frame<D>>, n: nat, p: PageNo)
    requires IsCommit(wal, n)
  {
    var tx, all := TxReplay(base, wal, n), Replay(base, wal, n);
    p in tx && p in all && tx[p] == all[p] && ReadPage(base, wal, n, p) == Some(all[p])
  }

  lemma {:induction false} TransactionPage<D>(base: map<PageNo, D>, size0: nat, wal: seq<Frame<D>>, n: nat, p: PageNo)
    requires 0 < n && IsCommit(wal, n) && GrowthWritten(size0, wal)
    requires p <= SizeAt(size0, wal, n)
    requires var m := PrevCommit(wal, n);
             TxReplay(base, wal, m) == Cut(Replay(base, wal, m), SizeAt(size0, wal, m)) &&
             Complete(TxReplay(base, wal, m), SizeAt(size0, wal, m))
    ensures PageAtCommit(base, size0, wal, n, p)
  {
    var m := PrevCommit(wal, n);
    var before := TxReplay(base, wal, m);
    ReplayIsLookup(before, wal, m, n, p);
    ReplayIsLookup(base, wal, 0, n, p);
    ReplayIsLookup(base, wal, 0, m, p);
    LastFrameSplits(wal, p, 0, m, n);
    if LastFrame(wal, p, m, n) == 0 {
      assert p <= SizeAt(size0, wal, m) && p in before;
    }
  }

  lemma {:induction false} LastFrameSplits<D>(wal: seq<Frame<D>>, p: PageNo, a: nat, m: nat, n: nat)
    requires a <= m <= n <= |wal|
    ensures LastFrame(wal, p, a, n) ==
            if LastFrame(wal, p, m, n) != 0 then LastFrame(wal, p, m, n) else LastFrame(wal, p, a, m)
  {
    if m < n {
      LastFrameSplits(wal, p, a, m, n - 1);
    }
  }

  lemma LastFrameHead<D>(wal: seq<Frame<D>>, p: PageNo, c: nat, n: nat)
    requires c < n <= |wal|
    ensures LastFrame(wal, p, c, n) ==
            if LastFrame(wal, p, c + 1, n) != 0 then LastFrame(wal, p, c + 1, n)
            else if wal[c].pageNo == p then c + 1 else 0
  {
    LastFrameSplits(wal, p, c, c + 1, n);
    assert LastFrame(wal, p, c, c) == 0;
  }

  /** Appending to the log changes no earlier lookup. */
  lemma {:induction false} ReplayOfPrefix<D>(
    start: map<PageNo, D>, wal: seq<Frame<D>>, more: seq<Frame<D>>, c: nat, n: nat)
    requires n <= |wal| && wal <= more
    ensures ReplayFrom(start, wal, c, n) == ReplayFrom(start, more, c, n)
  {
    if c < n {
      ReplayOfPrefix(start, wal, more, c, n - 1);
    }
  }
}
