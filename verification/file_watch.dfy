/**
 * The watch loop of `FileChangeEventListener`: it blocks in `take`,
 * reloads the configuration group once per modify event naming the
 * watched file, resets the key, and goes round again until an interrupt
 * or a key that can no longer be reset ends it.
 *
 * The watch service is replaced by the sequence of what successive
 * `take` calls deliver; `configGroup.initConfigs()` and `key.reset()`
 * become effects recorded in a trace.
 */
module FileChangeListener {

  import opened Optional

  /** A `java.nio.file.Path` as its name elements; a root such as `/` has none. */
  type FilePath = seq<string>

  datatype Kind = EntryCreate | EntryDelete | EntryModify | Overflow

  datatype Event = Event(kind: Kind, context: FilePath)

  /**
   * What one `watcher.take()` delivers: an interrupt, or a signalled key
   * with its pending events and the answer its `reset()` will give.
   */
  datatype Take = Interrupted | Signalled(events: seq<Event>, resetOk: bool)

  /** The observable steps of the loop: `configGroup.initConfigs()` and `key.reset()`. */
  datatype Effect = Reload | Reset

  /**
   * How the loop ended: returned on an interrupt, left after a failed
   * reset, or died on a `NullPointerException`; `Waiting` when it is still
   * blocked in `take` once the given outcomes are used up.
   */
  datatype Stop = Waiting | WasInterrupted | KeyInvalid | Crashed

  datatype Outcome = Outcome(trace: seq<Effect>, stop: Stop)

  /**
   * `Path.getFileName`: the last name element, `None` (Java's `null`) for a
   * path without one. The empty sequence stands for the root `/`. Java's
   * empty path `""` has one empty name element, but no event context is
   * either of these.
   */
  function FileName(p: FilePath): (r: Option<string>)
    ensures r.None? <==> |p| == 0
    ensures forall d: FilePath, n: string :: p == d + [n] ==> r == Some(n)
  {
    if |p| == 0 then None else Some(p[|p| - 1])
  }

  /**
   * `isSameFile`: compares the file names only. `None` when the first
   * path has no file name, where the call on `null` throws.
   */
  function IsSameFile(file1: FilePath, file2: FilePath): (r: Option<bool>)
    ensures r.None? <==> |file1| == 0
    ensures r == Some(true) <==> |file1| > 0 && |file2| > 0 && file1[|file1| - 1] == file2[|file2| - 1]
  {
    match FileName(file1)
    case None => None
    case Some(n) => Some(FileName(file2) == Some(n))
  }

  /** Only the last name element decides; the directories around it do not matter. */
  lemma SameFileIgnoresDirectories(d1: FilePath, d2: FilePath, n: string, m: string)
    ensures IsSameFile(d1 + [n], d2 + [m]) == Some(n == m)
  {
  }

  /** What one batch of events does: its reloads in order, and whether an event crashed the loop. */
  datatype BatchResult = BatchResult(effects: seq<Effect>, crashed: bool)

  /**
   * The `for` loop over `key.pollEvents()`: events of other kinds are
   * skipped; a modify event naming the watched file reloads; a modify
   * event without a file name throws, ending the thread after the reloads
   * already done.
   */
  function Batch(events: seq<Event>, watched: FilePath): (r: BatchResult)
    ensures forall k | 0 <= k < |r.effects| :: r.effects[k] == Reload
    ensures |r.effects| <= |events|
    decreases |events|
  {
    if |events| == 0 then BatchResult([], false)
    else
      var e := events[0];
      if e.kind != EntryModify then Batch(events[1..], watched)
      else
        match IsSameFile(e.context, watched)
        case None => BatchResult([], true)
        case Some(same) =>
          var rest := Batch(events[1..], watched);
          BatchResult((if same then [Reload] else []) + rest.effects, rest.crashed)
  }

  /**
   * `run`: the `while (true)` loop over successive `take` outcomes. An
   * interrupt returns at once; otherwise the batch is processed, the key
   * is reset, and a failed reset breaks out of the loop.
   */
  function Run(takes: seq<Take>, watched: FilePath): (r: Outcome)
    ensures r.stop == Waiting ==> forall k | 0 <= k < |takes| :: takes[k].Signalled? && takes[k].resetOk
    decreases |takes|
  {
    if |takes| == 0 then Outcome([], Waiting)
    else
      match takes[0]
      case Interrupted => Outcome([], WasInterrupted)
      case Signalled(events, resetOk) =>
        var b := Batch(events, watched);
        if b.crashed then Outcome(b.effects, Crashed)
        else if !resetOk then Outcome(b.effects + [Reset], KeyInvalid)
        else
          var rest := Run(takes[1..], watched);
          Outcome(b.effects + [Reset] + rest.trace, rest.stop)
  }

  /* ----- an independent account of what the loop should do ----- */

  /** A modify event whose file name is that of the watched file. */
  predicate Matches(e: Event, watched: FilePath) {
    && e.kind == EntryModify
    && |e.context| > 0 && |watched| > 0
    && e.context[|e.context| - 1] == watched[|watched| - 1]
  }

  /** An event that cannot crash the loop: modify events carry a file name (as the watch service delivers them). */
  predicate Named(e: Event) {
    e.kind == EntryModify ==> |e.context| > 0
  }

  function MatchingCount(events: seq<Event>, watched: FilePath): nat {
    if |events| == 0 then 0
    else (if Matches(events[0], watched) then 1 else 0) + MatchingCount(events[1..], watched)
  }

  /** The event batches the loop works through: up to an interrupt, and up to and including a failed reset. */
  function Processed(takes: seq<Take>): (batches: seq<seq<Event>>)
    ensures |batches| <= |takes|
  {
    if |takes| == 0 then []
    else
      match takes[0]
      case Interrupted => []
      case Signalled(events, resetOk) => [events] + (if resetOk then Processed(takes[1..]) else [])
  }

  function TotalMatching(batches: seq<seq<Event>>, watched: FilePath): nat {
    if |batches| == 0 then 0 else MatchingCount(batches[0], watched) + TotalMatching(batches[1..], watched)
  }

  function Count(trace: seq<Effect>, x: Effect): nat {
    if |trace| == 0 then 0 else (if trace[0] == x then 1 else 0) + Count(trace[1..], x)
  }

  predicate AllNamed(takes: seq<Take>) {
    forall k, j | 0 <= k < |takes| && takes[k].Signalled? && 0 <= j < |takes[k].events| :: Named(takes[k].events[j])
  }

  /* ----- lemmas ----- */

  lemma {:induction false} CountAppend(a: seq<Effect>, b: seq<Effect>, x: Effect)
    ensures Count(a + b, x) == Count(a, x) + Count(b, x)
    decreases |a|
  {
    if |a| == 0 {
      assert a + b == b;
    } else {
      assert (a + b)[1..] == a[1..] + b;
      CountAppend(a[1..], b, x);
    }
  }

  /** With named modify events a batch never crashes and reloads once per matching event. */
  lemma {:induction false} BatchReloadsMatching(events: seq<Event>, watched: FilePath)
    requires forall j | 0 <= j < |events| :: Named(events[j])
    ensures !Batch(events, watched).crashed
    ensures |Batch(events, watched).effects| == MatchingCount(events, watched)
    decreases |events|
  {
    if |events| > 0 {
      BatchReloadsMatching(events[1..], watched);
    }
  }

  /** Events of a kind other than modify are skipped: removing them changes nothing. */
  lemma {:induction false} OtherKindsIgnored(events: seq<Event>, watched: FilePath)
    ensures Batch(events, watched) == Batch(ModifyEvents(events), watched)
    decreases |events|
  {
    if |events| > 0 {
      OtherKindsIgnored(events[1..], watched);
      var m := ModifyEvents(events);
      if events[0].kind == EntryModify {
        assert m == [events[0]] + ModifyEvents(events[1..]);
        assert |m| > 0 && m[0] == events[0] && m[1..] == ModifyEvents(events[1..]);
      } else {
        assert m == ModifyEvents(events[1..]);
      }
    }
  }

  function ModifyEvents(events: seq<Event>): (r: seq<Event>)
    ensures forall j | 0 <= j < |r| :: r[j].kind == EntryModify
    ensures |r| <= |events|
  {
    if |events| == 0 then []
    else (if events[0].kind == EntryModify then [events[0]] else []) + ModifyEvents(events[1..])
  }

  /**
   * The whole run: one reload per matching modify event of every batch
   * worked through, one reset per such batch, and the loop never crashes.
   */
  lemma {:induction false} RunMatchesSpec(takes: seq<Take>, watched: FilePath)
    requires AllNamed(takes)
    ensures Run(takes, watched).stop != Crashed
    ensures Count(Run(takes, watched).trace, Reload) == TotalMatching(Processed(takes), watched)
    ensures Count(Run(takes, watched).trace, Reset) == |Processed(takes)|
    decreases |takes|
  {
    if |takes| > 0 && takes[0].Signalled? {
      var events, resetOk := takes[0].events, takes[0].resetOk;
      var b := Batch(events, watched);
      assert forall j | 0 <= j < |events| :: Named(events[j]) by {
        assert takes[0] == Signalled(events, resetOk);
      }
      BatchReloadsMatching(events, watched);
      OnlyReloads(b.effects);
      assert Processed(takes)[0] == events;
      if resetOk {
        assert AllNamed(takes[1..]) by {
          forall k, j | 0 <= k < |takes| - 1 && takes[1..][k].Signalled? && 0 <= j < |takes[1..][k].events|
            ensures Named(takes[1..][k].events[j])
          {
            assert takes[1..][k] == takes[k + 1];
          }
        }
        RunMatchesSpec(takes[1..], watched);
        var rest := Run(takes[1..], watched);
        CountAppend(b.effects + [Reset], rest.trace, Reload);
        CountAppend(b.effects + [Reset], rest.trace, Reset);
        CountAppend(b.effects, [Reset], Reload);
        CountAppend(b.effects, [Reset], Reset);
        assert Processed(takes)[1..] == Processed(takes[1..]);
      } else {
        CountAppend(b.effects, [Reset], Reload);
        CountAppend(b.effects, [Reset], Reset);
      }
    }
  }

  lemma {:induction false} OnlyReloads(effects: seq<Effect>)
    requires forall k | 0 <= k < |effects| :: effects[k] == Reload
    ensures Count(effects, Reload) == |effects| && Count(effects, Reset) == 0
    decreases |effects|
  {
    if |effects| > 0 {
      OnlyReloads(effects[1..]);
    }
  }

  /** Once the loop has ended, later take outcomes are never looked at. */
  lemma {:induction false} StopIgnoresRest(takes: seq<Take>, more: seq<Take>, watched: FilePath)
    requires Run(takes, watched).stop != Waiting
    ensures Run(takes + more, watched) == Run(takes, watched)
    decreases |takes|
  {
    assert |takes| > 0;
    assert (takes + more)[0] == takes[0] && (takes + more)[1..] == takes[1..] + more;
    if takes[0].Signalled? && takes[0].resetOk && !Batch(takes[0].events, watched).crashed {
      StopIgnoresRest(takes[1..], more, watched);
    }
  }

  /** While the loop keeps waiting, later take outcomes just continue its trace. */
  lemma {:induction false} WaitingContinues(takes: seq<Take>, more: seq<Take>, watched: FilePath)
    requires Run(takes, watched).stop == Waiting
    ensures Run(takes + more, watched).trace == Run(takes, watched).trace + Run(more, watched).trace
    ensures Run(takes + more, watched).stop == Run(more, watched).stop
    decreases |takes|
  {
    if |takes| == 0 {
      assert takes + more == more;
    } else {
      assert (takes + more)[0] == takes[0] && (takes + more)[1..] == takes[1..] + more;
      var b := Batch(takes[0].events, watched);
      assert takes[0].Signalled? && takes[0].resetOk && !b.crashed;
      var head := b.effects + [Reset];
      assert Run(takes, watched).trace == head + Run(takes[1..], watched).trace;
      WaitingContinues(takes[1..], more, watched);
      assert Run(takes + more, watched).trace == head + Run(takes[1..] + more, watched).trace;
      assert head + (Run(takes[1..], watched).trace + Run(more, watched).trace)
        == (head + Run(takes[1..], watched).trace) + Run(more, watched).trace;
    }
  }

  /** An interrupt ends the loop: whatever comes after it adds no reload. */
  lemma InterruptEndsLoop(before: seq<Take>, after: seq<Take>, watched: FilePath)
    ensures Run(before + [Interrupted] + after, watched) == Run(before + [Interrupted], watched)
    ensures Run(before + [Interrupted], watched).stop != Waiting
  {
    var pre := before + [Interrupted];
    assert !pre[|before|].Signalled?;
    StopIgnoresRest(pre, after, watched);
  }

  /** A batch whose reset fails is the last one processed: its reloads, then the reset, then nothing. */
  lemma {:induction false} FailedResetEndsLoop(events: seq<Event>, after: seq<Take>, watched: FilePath)
    requires forall j | 0 <= j < |events| :: Named(events[j])
    ensures Run([Signalled(events, false)] + after, watched)
      == Outcome(Batch(events, watched).effects + [Reset], KeyInvalid)
  {
    BatchReloadsMatching(events, watched);
    StopIgnoresRest([Signalled(events, false)], after, watched);
  }

  /**
   * A modify event without a file name crashes its batch: the reloads of
   * the matching events before it are kept, and nothing after it is seen.
   */
  lemma {:induction false} BatchCrashesAtUnnamed(events: seq<Event>, watched: FilePath, i: nat)
    requires i < |events| && !Named(events[i])
    requires forall j | 0 <= j < i :: Named(events[j])
    ensures Batch(events, watched).crashed
    ensures |Batch(events, watched).effects| == MatchingCount(events[..i], watched)
    decreases i
  {
    if i > 0 {
      BatchCrashesAtUnnamed(events[1..], watched, i - 1);
      assert events[..i][1..] == events[1..][..i - 1];
    }
  }

  /** A crashed batch ends the loop there: its reloads are the whole trace, with no reset, whatever follows. */
  lemma CrashEndsLoop(events: seq<Event>, resetOk: bool, after: seq<Take>, watched: FilePath)
    requires Batch(events, watched).crashed
    ensures Run([Signalled(events, resetOk)] + after, watched) == Outcome(Batch(events, watched).effects, Crashed)
    ensures Count(Run([Signalled(events, resetOk)] + after, watched).trace, Reset) == 0
  {
    StopIgnoresRest([Signalled(events, resetOk)], after, watched);
    OnlyReloads(Batch(events, watched).effects);
  }

  /** Batches that never name the watched file in a modify event cause no reload at all. */
  lemma {:induction false} NoMatchNoReload(takes: seq<Take>, watched: FilePath)
    requires forall k, j | 0 <= k < |takes| && takes[k].Signalled? && 0 <= j < |takes[k].events| ::
      !Matches(takes[k].events[j], watched)
    ensures Count(Run(takes, watched).trace, Reload) == 0
    decreases |takes|
  {
    if |takes| > 0 && takes[0].Signalled? {
      var b := Batch(takes[0].events, watched);
      BatchWithoutMatch(takes[0].events, watched);
      OnlyReloads(b.effects);
      CountAppend(b.effects, [Reset], Reload);
      if takes[0].resetOk && !b.crashed {
        assert forall k, j | 0 <= k < |takes| - 1 && takes[1..][k].Signalled? && 0 <= j < |takes[1..][k].events| ::
          !Matches(takes[1..][k].events[j], watched) by {
          forall k, j | 0 <= k < |takes| - 1 && takes[1..][k].Signalled? && 0 <= j < |takes[1..][k].events|
            ensures !Matches(takes[1..][k].events[j], watched)
          {
            assert takes[1..][k] == takes[k + 1];
          }
        }
        NoMatchNoReload(takes[1..], watched);
        CountAppend(b.effects + [Reset], Run(takes[1..], watched).trace, Reload);
      }
    }
  }

  lemma {:induction false} BatchWithoutMatch(events: seq<Event>, watched: FilePath)
    requires forall j | 0 <= j < |events| :: !Matches(events[j], watched)
    ensures Batch(events, watched).effects == []
    decreases |events|
  {
    if |events| > 0 {
      BatchWithoutMatch(events[1..], watched);
    }
  }
}
