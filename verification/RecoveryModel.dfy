/** Crash recovery from the log: analysis, redo from the last checkpoint, undo of what never committed. */
module RecoveryModel {
  import opened Types
  import opened Bytes
  import opened Wal

  type Page = seq<byte>

  /** The pages of the data file; writing any other page fails. */
  type Disk = map<PageId, Page>

  datatype Write = Write(page: PageId, image: Page)

  /* ---------- Analysis ---------- */

  /** The transactions with a commit record anywhere in the log. */
  function Winners(log: seq<Record>): (c: set<nat>)
    ensures forall t :: t in c <==> exists i :: 0 <= i < |log| && log[i].kind == COMMIT && log[i].txn == t
  {
    set i | 0 <= i < |log| && log[i].kind == COMMIT :: log[i].txn
  }

  /** The position behind the last checkpoint. */
  function RedoStart(log: seq<Record>): (n: nat)
    ensures n <= |log|
    ensures n > 0 ==> log[n - 1].kind == CHECKPOINT
    ensures forall i :: n <= i < |log| ==> log[i].kind != CHECKPOINT
  {
    if |log| == 0 then 0
    else if log[|log| - 1].kind == CHECKPOINT then |log|
    else RedoStart(log[..|log| - 1])
  }

  predicate IsLoser(r: Record, winners: set<nat>) {
    r.kind == UPDATE && r.txn !in winners
  }

  /* ---------- The page writes of a recovery ---------- */

  function RedoWrites(log: seq<Record>): seq<Write>
    decreases |log|
  {
    if |log| == 0 then []
    else
      RedoWrites(log[..|log| - 1])
      + if log[|log| - 1].kind == UPDATE then [Write(log[|log| - 1].page, log[|log| - 1].after)] else []
  }

  /** Before-images of the losers, from the end of the log to its beginning. */
  function UndoWrites(log: seq<Record>, winners: set<nat>): seq<Write>
    decreases |log|
  {
    if |log| == 0 then []
    else
      (if IsLoser(log[|log| - 1], winners) then [Write(log[|log| - 1].page, log[|log| - 1].before)] else [])
      + UndoWrites(log[..|log| - 1], winners)
  }

  function Writes(log: seq<Record>): seq<Write> {
    RedoWrites(log[RedoStart(log)..]) + UndoWrites(log, Winners(log))
  }

  /** The writes up to the first one that fails. */
  function Effective(ws: seq<Write>, pages: set<PageId>): seq<Write> {
    if |ws| == 0 || ws[0].page !in pages then [] else [ws[0]] + Effective(ws[1..], pages)
  }

  function Apply(d: Disk, ws: seq<Write>): Disk
    decreases |ws|
  {
    if |ws| == 0 then d else Apply(d[ws[0].page := ws[0].image], ws[1..])
  }

  /** The disk after a recovery, which stops at a write that fails. */
  function Recovered(d: Disk, log: seq<Record>): Disk {
    Apply(d, Effective(Writes(log), d.Keys))
  }

  /* ---------- What a series of writes leaves behind ---------- */

  function LastImage(ws: seq<Write>, p: PageId): Option<Page>
    decreases |ws|
  {
    if |ws| == 0 then None
    else if ws[|ws| - 1].page == p then Some(ws[|ws| - 1].image)
    else LastImage(ws[..|ws| - 1], p)
  }

  function Or(o: Option<Page>, p: Page): Page {
    if o.Some? then o.value else p
  }

  lemma {:induction false} ApplySnoc(d: Disk, ws: seq<Write>, w: Write)
    ensures Apply(d, ws + [w]) == Apply(d, ws)[w.page := w.image]
    decreases |ws|
  {
    if |ws| == 0 {
      assert ws + [w] == [w];
      assert [w][1..] == [];
    } else {
      assert (ws + [w])[1..] == ws[1..] + [w];
      ApplySnoc(d[ws[0].page := ws[0].image], ws[1..], w);
    }
  }

  lemma {:induction false} ApplyIs(d: Disk, ws: seq<Write>, p: PageId)
    requires forall i :: 0 <= i < |ws| ==> ws[i].page in d
    ensures Apply(d, ws).Keys == d.Keys
    ensures p in d ==> Apply(d, ws)[p] == Or(LastImage(ws, p), d[p])
    decreases |ws|
  {
    if |ws| > 0 {
      var init, w := ws[..|ws| - 1], ws[|ws| - 1];
      ApplyIs(d, init, p);
      ApplySnoc(d, init, w);
      assert init + [w] == ws;
    }
  }

  lemma {:induction false} EffectiveIn(ws: seq<Write>, pages: set<PageId>)
    ensures forall i :: 0 <= i < |Effective(ws, pages)| ==> Effective(ws, pages)[i].page in pages
    ensures Effective(ws, pages) <= ws
    ensures (forall i :: 0 <= i < |ws| ==> ws[i].page in pages) ==> Effective(ws, pages) == ws
  {
    if |ws| > 0 && ws[0].page in pages {
      EffectiveIn(ws[1..], pages);
    }
  }

  lemma {:induction false} LastImageAppend(a: seq<Write>, b: seq<Write>, p: PageId)
    ensures LastImage(a + b, p) == if LastImage(b, p).Some? then LastImage(b, p) else LastImage(a, p)
    decreases |b|
  {
    if |b| == 0 {
      assert a + b == a;
    } else {
      assert (a + b)[..|a + b| - 1] == a + b[..|b| - 1];
      LastImageAppend(a, b[..|b| - 1], p);
    }
  }

  /* ---------- Restarting a recovery ---------- */

  lemma {:induction false} LastImageOfPrefix(ws: seq<Write>, k: nat, p: PageId)
    requires k <= |ws|
    ensures LastImage(ws[..k], p).Some? ==> LastImage(ws, p).Some?
  {
    assert ws == ws[..k] + ws[k..];
    LastImageAppend(ws[..k], ws[k..], p);
  }

  /** The first `k` writes of a recovery that is then cut short. */
  function CutShort(d: Disk, log: seq<Record>, k: nat): Disk {
    var ws := Effective(Writes(log), d.Keys);
    Apply(d, ws[..if k <= |ws| then k else |ws|])
  }

  /** Any number of recoveries, each cut short somewhere. */
  function Attempts(d: Disk, log: seq<Record>, cuts: seq<nat>): Disk
    decreases |cuts|
  {
    if |cuts| == 0 then d else CutShort(Attempts(d, log, cuts[..|cuts| - 1]), log, cuts[|cuts| - 1])
  }

  lemma {:induction false} AfterCutShort(d: Disk, log: seq<Record>, k: nat)
    ensures CutShort(d, log, k).Keys == d.Keys
    ensures Recovered(CutShort(d, log, k), log) == Recovered(d, log)
  {
    var ws := Effective(Writes(log), d.Keys);
    EffectiveIn(Writes(log), d.Keys);
    var n := if k <= |ws| then k else |ws|;
    var c := CutShort(d, log, k);
    ApplyIs(d, ws[..n], 0);
    ApplyIs(d, ws, 0);
    ApplyIs(c, ws, 0);
    forall p | p in d ensures Apply(c, ws)[p] == Apply(d, ws)[p] {
      ApplyIs(d, ws[..n], p);
      ApplyIs(d, ws, p);
      ApplyIs(c, ws, p);
      LastImageOfPrefix(ws, n, p);
    }
  }

  /**
   Recovery can be interrupted after any number of its writes, any number of times, and run
   again: the complete run ends in the same disk as one that was never interrupted, for any
   log and any disk.
   */
  lemma {:induction false} RecoveryRestarts(d: Disk, log: seq<Record>, cuts: seq<nat>)
    ensures Attempts(d, log, cuts).Keys == d.Keys
    ensures Recovered(Attempts(d, log, cuts), log) == Recovered(d, log)
    decreases |cuts|
  {
    if |cuts| > 0 {
      RecoveryRestarts(d, log, cuts[..|cuts| - 1]);
      AfterCutShort(Attempts(d, log, cuts[..|cuts| - 1]), log, cuts[|cuts| - 1]);
    }
  }

  /** A second recovery changes nothing. */
  lemma {:induction false} RecoveryIdempotent(d: Disk, log: seq<Record>)
    ensures Recovered(Recovered(d, log), log) == Recovered(d, log)
  {
    var ws := Effective(Writes(log), d.Keys);
    AfterCutShort(d, log, |ws|);
    assert ws[..|ws|] == ws;
  }

  /* ---------- What recovery leaves on each page ---------- */

  /** The page image after replaying the updates of the given transactions. */
  function Replay(log: seq<Record>, p: PageId, only: set<nat>, start: Page): Page
    decreases |log|
  {
    if |log| == 0 then start
    else
      var r := log[|log| - 1];
      if r.kind == UPDATE && r.page == p && r.txn in only then r.after
      else Replay(log[..|log| - 1], p, only, start)
  }

  /** The page image after all updates. */
  function Current(log: seq<Record>, p: PageId, start: Page): Page
    decreases |log|
  {
    if |log| == 0 then start
    else if log[|log| - 1].kind == UPDATE && log[|log| - 1].page == p then log[|log| - 1].after
    else Current(log[..|log| - 1], p, start)
  }

  predicate Touches(log: seq<Record>, p: PageId) {
    exists i :: 0 <= i < |log| && log[i].kind == UPDATE && log[i].page == p
  }

  /** The position of the first update of a page by a transaction that never committed. */
  function FirstLoser(log: seq<Record>, winners: set<nat>, p: PageId): (r: Option<nat>)
    ensures r.Some? ==> r.value < |log| && IsLoser(log[r.value], winners) && log[r.value].page == p
    ensures r.Some? ==> forall i :: 0 <= i < r.value ==> !(IsLoser(log[i], winners) && log[i].page == p)
    ensures r.None? ==> forall i :: 0 <= i < |log| ==> !(IsLoser(log[i], winners) && log[i].page == p)
    decreases |log|
  {
    if |log| == 0 then None
    else
      var r := FirstLoser(log[..|log| - 1], winners, p);
      if r.Some? then r
      else if IsLoser(log[|log| - 1], winners) && log[|log| - 1].page == p then Some(|log| - 1)
      else None
  }

  lemma {:induction false} UndoLastImage(log: seq<Record>, winners: set<nat>, p: PageId)
    ensures LastImage(UndoWrites(log, winners), p) ==
            match FirstLoser(log, winners, p) case None => None case Some(i) => Some(log[i].before)
    decreases |log|
  {
    if |log| > 0 {
      var init, r := log[..|log| - 1], log[|log| - 1];
      UndoLastImage(init, winners, p);
      var w := if IsLoser(r, winners) then [Write(r.page, r.before)] else [];
      LastImageAppend(w, UndoWrites(init, winners), p);
      assert w == [] || w[..|w| - 1] == [];
    }
  }

  lemma {:induction false} TouchesSnoc(log: seq<Record>, p: PageId)
    requires |log| > 0
    ensures var r := log[|log| - 1];
            Touches(log, p) <==> Touches(log[..|log| - 1], p) || (r.kind == UPDATE && r.page == p)
  {
    var init := log[..|log| - 1];
    if i :| 0 <= i < |init| && init[i].kind == UPDATE && init[i].page == p {
      assert log[i].kind == UPDATE && log[i].page == p;
    }
    if i :| 0 <= i < |log| && log[i].kind == UPDATE && log[i].page == p && i < |init| {
      assert init[i].kind == UPDATE && init[i].page == p;
    }
  }

  lemma {:induction false} RedoLastImage(log: seq<Record>, p: PageId, start: Page)
    ensures LastImage(RedoWrites(log), p).Some? <==> Touches(log, p)
    ensures Or(LastImage(RedoWrites(log), p), start) == Current(log, p, start)
    decreases |log|
  {
    if |log| > 0 {
      var init, r := log[..|log| - 1], log[|log| - 1];
      RedoLastImage(init, p, start);
      TouchesSnoc(log, p);
      var w := if r.kind == UPDATE then [Write(r.page, r.after)] else [];
      LastImageAppend(RedoWrites(init), w, p);
      assert w == [] || w[..|w| - 1] == [];
    }
  }

  /** All updates are to pages of the data file. */
  predicate InFile(log: seq<Record>, d: Disk) {
    forall i :: 0 <= i < |log| && log[i].kind == UPDATE ==> log[i].page in d
  }

  lemma {:induction false} RedoInFile(log: seq<Record>, d: Disk)
    requires InFile(log, d)
    ensures forall i :: 0 <= i < |RedoWrites(log)| ==> RedoWrites(log)[i].page in d
    decreases |log|
  {
    if |log| > 0 {
      RedoInFile(log[..|log| - 1], d);
    }
  }

  lemma {:induction false} UndoInFile(log: seq<Record>, winners: set<nat>, d: Disk)
    requires InFile(log, d)
    ensures forall i :: 0 <= i < |UndoWrites(log, winners)| ==> UndoWrites(log, winners)[i].page in d
    decreases |log|
  {
    if |log| > 0 {
      UndoInFile(log[..|log| - 1], winners, d);
    }
  }

  /**
   What a recovery leaves on a page, for any log and any disk: the before-image of the
   first loser if there is one; otherwise the last after-image since the checkpoint, if
   there is one; otherwise what the disk held.
   */
  lemma {:induction false} RecoveredPage(d: Disk, log: seq<Record>, p: PageId)
    requires InFile(log, d) && p in d
    ensures Recovered(d, log).Keys == d.Keys
    ensures Recovered(d, log)[p] ==
            match FirstLoser(log, Winners(log), p)
            case Some(i) => log[i].before
            case None => Current(log[RedoStart(log)..], p, d[p])
  {
    var winners, seg := Winners(log), log[RedoStart(log)..];
    RedoInFile(seg, d);
    UndoInFile(log, winners, d);
    EffectiveIn(Writes(log), d.Keys);
    ApplyIs(d, Writes(log), p);
    LastImageAppend(RedoWrites(seg), UndoWrites(log, winners), p);
    UndoLastImage(log, winners, p);
    RedoLastImage(seg, p, d[p]);
  }

  /* ---------- When recovery restores exactly the committed updates ---------- */

  /** Every before-image is the image the page had at that point, starting from `start`. */
  predicate Chained(log: seq<Record>, p: PageId, start: Page) {
    forall i :: 0 <= i < |log| && log[i].kind == UPDATE && log[i].page == p ==> log[i].before == Current(log[..i], p, start)
  }

  /** A page without updates since the last checkpoint is on disk as of that checkpoint. */
  predicate Flushed(d: Disk, log: seq<Record>, p: PageId, start: Page)
    requires p in d
  {
    Touches(log[RedoStart(log)..], p) || d[p] == Current(log, p, start)
  }

  /** No committed update of a page follows one that never committed. */
  predicate LosersLast(log: seq<Record>, p: PageId) {
    forall i, j :: 0 <= i < j < |log| && log[i].page == p && log[j].page == p && IsLoser(log[i], Winners(log)) && log[j].kind == UPDATE
                   ==> IsLoser(log[j], Winners(log))
  }

  lemma {:induction false} CurrentSplit(log: seq<Record>, k: nat, p: PageId, start: Page)
    requires k <= |log|
    ensures Current(log, p, start) == Current(log[k..], p, Current(log[..k], p, start))
    decreases |log| - k
  {
    if k == |log| {
      assert log[..k] == log && log[k..] == [];
    } else {
      var init := log[..|log| - 1];
      CurrentSplit(init, k, p, start);
      assert init[..k] == log[..k];
      assert log[k..][..|log| - k - 1] == init[k..];
    }
  }

  lemma {:induction false} CurrentTouched(log: seq<Record>, p: PageId, a: Page, b: Page)
    requires Touches(log, p)
    ensures Current(log, p, a) == Current(log, p, b)
    decreases |log|
  {
    var init, r := log[..|log| - 1], log[|log| - 1];
    if !(r.kind == UPDATE && r.page == p) {
      var i :| 0 <= i < |log| && log[i].kind == UPDATE && log[i].page == p;
      assert init[i] == log[i];
      CurrentTouched(init, p, a, b);
    }
  }

  lemma {:induction false} CurrentUntouched(log: seq<Record>, p: PageId, a: Page)
    requires !Touches(log, p)
    ensures Current(log, p, a) == a
    decreases |log|
  {
    if |log| > 0 {
      var init := log[..|log| - 1];
      forall i | 0 <= i < |init| ensures !(init[i].kind == UPDATE && init[i].page == p) {
        assert init[i] == log[i];
      }
      CurrentUntouched(init, p, a);
    }
  }

  /** After redo every page holds its latest image, whatever the crash left on the pages updated since the checkpoint. */
  lemma {:induction false} RedoReachesCurrent(d: Disk, log: seq<Record>, p: PageId, start: Page)
    requires p in d && Flushed(d, log, p, start)
    ensures Current(log[RedoStart(log)..], p, d[p]) == Current(log, p, start)
  {
    var k := RedoStart(log);
    CurrentSplit(log, k, p, start);
    if Touches(log[k..], p) {
      CurrentTouched(log[k..], p, d[p], Current(log[..k], p, start));
    } else {
      CurrentUntouched(log[k..], p, d[p]);
    }
  }

  /** Up to the first loser all updates of a page are by winners. */
  lemma {:induction false} ReplayIsCurrent(log: seq<Record>, winners: set<nat>, p: PageId, start: Page)
    requires forall i :: 0 <= i < |log| ==> !(IsLoser(log[i], winners) && log[i].page == p)
    ensures Replay(log, p, winners, start) == Current(log, p, start)
    decreases |log|
  {
    if |log| > 0 {
      var init := log[..|log| - 1];
      forall i | 0 <= i < |init| ensures !(IsLoser(init[i], winners) && init[i].page == p) {
        assert init[i] == log[i];
      }
      ReplayIsCurrent(init, winners, p, start);
    }
  }

  predicate CommittedUpdate(r: Record, winners: set<nat>, p: PageId) {
    r.kind == UPDATE && r.page == p && r.txn in winners
  }

  /** The last committed update of a page from position `i` of the log on. */
  function LastWinner(log: seq<Record>, winners: set<nat>, p: PageId, i: nat): (r: Option<nat>)
    requires i <= |log|
    ensures match r
            case None => forall j :: i <= j < |log| ==> !CommittedUpdate(log[j], winners, p)
            case Some(k) =>
              && i <= k < |log| && CommittedUpdate(log[k], winners, p)
              && forall j :: k < j < |log| ==> !CommittedUpdate(log[j], winners, p)
    decreases |log|
  {
    var n := |log| - 1;
    if i == |log| then None
    else if CommittedUpdate(log[n], winners, p) then Some(n)
    else LastWinner(log[..n], winners, p, i)
  }

  /** Replaying the committed updates of a page ends in the after-image of the last one. */
  lemma {:induction false} ReplayEnds(log: seq<Record>, winners: set<nat>, p: PageId, i: nat, start: Page)
    requires i <= |log|
    ensures Replay(log[i..], p, winners, start) ==
            match LastWinner(log, winners, p, i) case None => start case Some(k) => log[k].after
    decreases |log|
  {
    if i < |log| {
      var tail, n := log[i..], |log| - 1;
      assert tail[|tail| - 1] == log[n] && tail[..|tail| - 1] == log[..n][i..];
      if !CommittedUpdate(log[n], winners, p) {
        ReplayEnds(log[..n], winners, p, i, start);
      }
    }
  }

  /**
   For a log whose before-images chain and a disk flushed at the checkpoint, recovery leaves
   on a page exactly the replay of its committed updates if and only if no committed update
   of the page follows the first loser on it, or the last such update happens to write the
   image the page had before that loser.
   */
  lemma {:induction false} RecoversIff(d: Disk, log: seq<Record>, p: PageId, start: Page)
    requires InFile(log, d) && p in d && Chained(log, p, start) && Flushed(d, log, p, start)
    ensures var winners := Winners(log);
            Recovered(d, log).Keys == d.Keys &&
            (Recovered(d, log)[p] == Replay(log, p, winners, start) <==>
               match FirstLoser(log, winners, p)
               case None => true
               case Some(i) =>
                 match LastWinner(log, winners, p, i)
                 case None => true
                 case Some(k) => log[k].after == log[i].before)
  {
    var winners := Winners(log);
    RecoveredPage(d, log, p);
    match FirstLoser(log, winners, p) {
      case None =>
        RedoReachesCurrent(d, log, p, start);
        ReplayIsCurrent(log, winners, p, start);
      case Some(i) =>
        ReplayIsCurrent(log[..i], winners, p, start);
        ReplaySplit(log, i, p, winners, start);
        ReplayEnds(log, winners, p, i, log[i].before);
    }
  }

  lemma {:induction false} ReplaySplit(log: seq<Record>, k: nat, p: PageId, only: set<nat>, start: Page)
    requires k <= |log|
    ensures Replay(log, p, only, start) == Replay(log[k..], p, only, Replay(log[..k], p, only, start))
    decreases |log| - k
  {
    if k == |log| {
      assert log[..k] == log && log[k..] == [];
    } else {
      var init := log[..|log| - 1];
      ReplaySplit(init, k, p, only, start);
      assert init[..k] == log[..k];
      assert log[k..][..|log| - k - 1] == init[k..];
    }
  }

  lemma {:induction false} PageRestored(d: Disk, log: seq<Record>, p: PageId, start: Page)
    requires InFile(log, d) && p in d && Chained(log, p, start) && Flushed(d, log, p, start) && LosersLast(log, p)
    ensures Recovered(d, log).Keys == d.Keys && Recovered(d, log)[p] == Replay(log, p, Winners(log), start)
  {
    RecoversIff(d, log, p, start);
  }

  /**
   With losers last on every page, recovery leaves the whole disk as if only the committed
   updates had been replayed in order, whatever the crash left on pages updated since the
   last checkpoint.
   */
  lemma {:induction false} RecoveryRestoresCommitted(d: Disk, log: seq<Record>, start: Disk)
    requires InFile(log, d) && start.Keys == d.Keys
    requires forall p :: p in d ==> Chained(log, p, start[p]) && Flushed(d, log, p, start[p]) && LosersLast(log, p)
    ensures Recovered(d, log) == map p | p in d :: Replay(log, p, Winners(log), start[p])
  {
    forall p | p in d
      ensures Recovered(d, log).Keys == d.Keys && Recovered(d, log)[p] == Replay(log, p, Winners(log), start[p])
    {
      PageRestored(d, log, p, start[p]);
    }
    if d == map[] {
      EffectiveIn(Writes(log), d.Keys);
      ApplyIs(d, Effective(Writes(log), d.Keys), 0);
      assert Recovered(d, log).Keys == {};
    }
  }

  /** A committed update that follows a lost one on the same page is undone with it. */
  lemma {:induction false} CommittedUpdateLost(a: Page, b: Page, c: Page)
    requires c != a
    ensures var log := [Record(1, UPDATE, 1, 1, a, b), Record(2, UPDATE, 2, 1, b, c), Record(3, COMMIT, 2, INVALID_PAGE, [], [])];
            var d := map[1 := c];
            && Chained(log, 1, a) && Flushed(d, log, 1, a) && InFile(log, d)
            && 1 in Recovered(d, log) && Recovered(d, log)[1] == a
            && Replay(log, 1, Winners(log), a) == c
  {
    var log := [Record(1, UPDATE, 1, 1, a, b), Record(2, UPDATE, 2, 1, b, c), Record(3, COMMIT, 2, INVALID_PAGE, [], [])];
    var d := map[1 := c];
    assert log[..0] == [] && log[..1] == [log[0]] && log[..2] == [log[0], log[1]];
    assert log[..1][..0] == [] && log[..2][..1] == [log[0]];
    assert Current(log[..1], 1, a) == b;
    assert Current(log[..2], 1, a) == c;
    assert log[2].kind == COMMIT && log[2].txn == 2;
    assert 1 !in Winners(log) && 2 in Winners(log);
    RecoveredPage(d, log, 1);
    var i := FirstLoser(log, Winners(log), 1);
    assert IsLoser(log[0], Winners(log)) && log[0].page == 1;
    assert i == Some(0);
    RedoStartNone(log);
    assert log[0..] == log;
    assert log[0].kind == UPDATE && log[0].page == 1;
    assert Touches(log, 1);
  }

  lemma {:induction false} RedoStartNone(log: seq<Record>)
    requires forall i :: 0 <= i < |log| ==> log[i].kind != CHECKPOINT
    ensures RedoStart(log) == 0
  {
  }
}
