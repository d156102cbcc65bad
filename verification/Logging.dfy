/** logging.c: the entry that a command opens in the session log, and the history of such entries. */
module Logging {
  import opened Basics
  import opened Exits

  datatype Kind = Download | Upload | Mkdir | Delete | Rename | Rmdir | Chmod | Update

  /** An entry is started, and later written with its success or dropped; writing without a started
      entry would write an empty kind. */
  datatype Event = Started(kind: Kind) | Written(what: Option<Kind>, ok: bool) | Dropped(what: Option<Kind>)

  predicate Closes(e: Event, k: Kind) {
    !e.Started? && e.what == Some(k)
  }

  /** Every entry was started and then closed, once, before the next one. */
  predicate Balanced(h: seq<Event>) {
    h == [] || (|h| >= 2 && h[|h| - 2].Started? && Closes(h[|h| - 1], h[|h| - 2].kind) && Balanced(h[..|h| - 2]))
  }

  lemma BalancedMore(h: seq<Event>, k: Kind, e: Event)
    requires Balanced(h) && Closes(e, k)
    ensures Balanced(h + [Started(k)] + [e])
  {
    assert (h + [Started(k)] + [e])[..|h|] == h;
  }

  /** Seen from any single entry: what is started at i is closed at i + 1, and every close has its start. */
  lemma {:induction false} BalancedMeans(h: seq<Event>, i: nat)
    requires Balanced(h) && i < |h|
    ensures h[i].Started? ==> i + 1 < |h| && Closes(h[i + 1], h[i].kind)
    ensures !h[i].Started? ==> i > 0 && h[i - 1].Started? && Closes(h[i], h[i - 1].kind)
  {
    if i < |h| - 2 {
      BalancedMeans(h[..|h| - 2], i);
    }
  }

  predicate Success(e: Event) {
    e.Written? && e.ok && (e.what == Some(Download) || e.what == Some(Upload))
  }

  /** How many transfers the history reports as successful. */
  function Successes(h: seq<Event>): nat {
    if h == [] then 0 else Successes(h[..|h| - 1]) + if Success(h[|h| - 1]) then 1 else 0
  }

  lemma SuccessesMore(h: seq<Event>, e: Event)
    ensures Successes(h + [e]) == Successes(h) + if Success(e) then 1 else 0
  {
    assert (h + [e])[..|h + [e]| - 1] == h;
  }

  class Log {
    var logType: Option<Kind>
    ghost var history: seq<Event>

    constructor ()
      ensures Quiet() && history == []
    {
      logType, history := None, [];
    }

    ghost predicate Valid()
      reads this
    {
      match logType
      case None => Balanced(history)
      case Some(k) => |history| > 0 && history[|history| - 1] == Started(k) && Balanced(history[..|history| - 1])
    }

    ghost predicate Quiet()
      reads this
    {
      Valid() && logType.None?
    }

    /** vsf_log_start_entry */
    method StartEntry(what: Kind) returns (o: Outcome)
      requires Valid()
      modifies this
      ensures Valid()
      ensures o == if old(logType).Some? then Exit(Trap(LogPending)) else Go
      ensures o.Go? ==> logType == Some(what) && history == old(history) + [Started(what)]
      ensures Successes(history) == Successes(old(history))
    {
      if logType.Some? {
        return Exit(Trap(LogPending));
      }
      SuccessesMore(history, Started(what));
      logType, history := Some(what), history + [Started(what)];
      assert history[..|history| - 1] == old(history);
      return Go;
    }

    lemma Closing(h: seq<Event>, k: Kind, e: Event)
      requires Closes(e, k) && |h| > 0 && h[|h| - 1] == Started(k) && Balanced(h[..|h| - 1])
      ensures Balanced(h + [e])
    {
      BalancedMore(h[..|h| - 1], k, e);
      assert h[..|h| - 1] + [Started(k)] == h;
    }

    /** vsf_log_clear_entry */
    method ClearEntry()
      requires Valid()
      modifies this
      ensures logType.None? && history == old(history) + [Dropped(old(logType))]
      ensures old(logType).Some? ==> Valid()
      ensures Successes(history) == Successes(old(history))
    {
      if logType.Some? {
        Closing(history, logType.value, Dropped(logType));
      }
      SuccessesMore(history, Dropped(logType));
      history := history + [Dropped(logType)];
      logType := None;
    }

    /** vsf_log_do_log */
    method DoLog(succeeded: bool)
      requires Valid()
      modifies this
      ensures logType.None? && history == old(history) + [Written(old(logType), succeeded)]
      ensures old(logType).Some? ==> Valid()
      ensures Successes(history) == Successes(old(history)) + if Success(Written(old(logType), succeeded)) then 1 else 0
    {
      if logType.Some? {
        Closing(history, logType.value, Written(logType, succeeded));
      }
      SuccessesMore(history, Written(logType, succeeded));
      history := history + [Written(logType, succeeded)];
      logType := None;
    }
  }
}
