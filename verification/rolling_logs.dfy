/** The bounded log of `splitPdf` (src/services/pdfService.ts:97-101): a
    list that `addLog` appends to in place and trims from the front once it
    holds more than ten lines. */
module RollingLogs {

  const Capacity: nat := 10

  /** One `addLog` step on the list's value: push, then drop the oldest
      line if the list has grown past the capacity. */
  function Step(entries: seq<string>, msg: string): (next: seq<string>)
    ensures next != [] && next[|next| - 1] == msg
    ensures |entries| <= Capacity ==> |next| <= Capacity
  {
    var pushed := entries + [msg];
    if |pushed| > Capacity then pushed[1..] else pushed
  }

  /** The list after `addLog` was called with each message in turn,
      starting from an empty list. */
  function Steps(messages: seq<string>): (entries: seq<string>)
    ensures |entries| <= Capacity
    ensures messages != [] ==> entries != [] && entries[|entries| - 1] == messages[|messages| - 1]
  {
    if messages == [] then [] else Step(Steps(messages[..|messages| - 1]), messages[|messages| - 1])
  }

  /** The last `Capacity` messages, oldest first. */
  function Window(messages: seq<string>): (w: seq<string>)
    ensures |w| == if |messages| < Capacity then |messages| else Capacity
  {
    if |messages| <= Capacity then messages else messages[|messages| - Capacity..]
  }

  /** One step keeps the log equal to the window of everything logged. */
  lemma {:induction false} StepKeepsWindow(messages: seq<string>, msg: string)
    ensures Step(Window(messages), msg) == Window(messages + [msg])
  {
    var h := messages + [msg];
    if |messages| > Capacity {
      assert Window(messages) + [msg] == h[|h| - Capacity - 1..];
    }
  }

  /** After any sequence of `addLog` calls the list holds the last ten
      messages (all of them if fewer), in the order they were logged. */
  lemma {:induction false} StepsIsWindow(messages: seq<string>)
    ensures Steps(messages) == Window(messages)
  {
    if messages != [] {
      var init := messages[..|messages| - 1];
      StepsIsWindow(init);
      StepKeepsWindow(init, messages[|messages| - 1]);
      assert init + [messages[|messages| - 1]] == messages;
    }
  }

  /** Once the log is full, each new line evicts exactly the oldest one. */
  lemma {:induction false} WindowEvictsOldest(messages: seq<string>, msg: string)
    requires |messages| >= Capacity
    ensures Window(messages + [msg]) == Window(messages)[1..] + [msg]
  {
    StepKeepsWindow(messages, msg);
  }

  /** The `log` array together with every message ever passed to `addLog`
      (the latter only for the proof). */
  class RollingLog {
    var entries: seq<string>
    ghost var history: seq<string>

    ghost predicate Valid()
      reads this
    {
      entries == Window(history)
    }

    constructor ()
      ensures Valid() && history == [] && entries == []
    {
      entries := [];
      history := [];
    }

    /** `addLog(msg)`. */
    method Add(msg: string)
      requires Valid()
      modifies this
      ensures Valid() && history == old(history) + [msg]
      ensures entries == Step(old(entries), msg)
    {
      StepKeepsWindow(history, msg);
      entries := entries + [msg];
      if |entries| > Capacity {
        entries := entries[1..];
      }
      history := history + [msg];
    }
  }
}
