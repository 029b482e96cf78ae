/** Maximis.Toolkit/Logging/TraceProgressReporter.cs: reports the progress
    of a long operation to the trace listeners: a dot every time
    `traceProgressPoint` more items were processed, and a single closing
    "Done" line. The trace output is modelled as the list of strings
    written to it, in order; Trace.WriteLine writes its text followed by
    NewLine. */
module TraceProgress {
  import opened Text

  /** A closing line: "Done." or "Done [n].", then NewLine. */
  predicate IsDoneLine(entry: string) {
    |entry| >= 4 + |NewLine| && entry[..4] == "Done" && entry[|entry| - |NewLine|..] == NewLine
  }

  /** How many closing lines a trace holds. */
  function DoneLines(trace: seq<string>): nat {
    if trace == [] then 0 else DoneLines(trace[..|trace| - 1]) + (if IsDoneLine(trace[|trace| - 1]) then 1 else 0)
  }

  class Reporter {
    var Trace: seq<string>
    var TotalProcessed: int
    var operationComplete: bool
    var traceProgressCount: int
    var traceProgressPoint: int

    /** The counter since the last dot stays below the progress point, and
        stays 0 when dots are off; at most one closing line is written, and
        none before the operation is complete. */
    predicate Valid()
      reads this
    {
      && (traceProgressPoint > 0 ==> traceProgressCount < traceProgressPoint)
      && (traceProgressPoint <= 0 ==> traceProgressCount == 0)
      && DoneLines(Trace) <= 1
      && (!operationComplete ==> DoneLines(Trace) == 0)
    }

    /** Writes the message and "...". */
    constructor (message: string, traceProgressPoint: int)
      ensures Valid()
      ensures Trace == [message + "..."]
      ensures this.traceProgressPoint == traceProgressPoint && traceProgressCount == 0
      ensures TotalProcessed == 0 && !operationComplete
    {
      Trace := [message + "..."];
      this.traceProgressPoint := traceProgressPoint;
      traceProgressCount := 0;
      TotalProcessed := 0;
      operationComplete := false;
      new;
      NotDoneShape(message + "...");
      NotDoneLine(Trace, message + "...");
    }

    /** Adds `processed` to the total and, when dots are on, writes a dot
        once the items since the last dot reach the progress point. */
    method IterationComplete(processed: int)
      requires Valid()
      modifies this
      ensures Valid()
      ensures TotalProcessed == old(TotalProcessed) + processed
      ensures traceProgressPoint == old(traceProgressPoint) && operationComplete == old(operationComplete)
      ensures var reached := traceProgressPoint > 0 && old(traceProgressCount) + processed >= traceProgressPoint;
        && Trace == old(Trace) + (if reached then ["."] else [])
        && traceProgressCount == (if traceProgressPoint <= 0 || reached then 0 else old(traceProgressCount) + processed)
      ensures processed >= 0 && old(traceProgressCount) >= 0 ==> 0 <= traceProgressCount
      ensures traceProgressPoint <= 0 ==> Trace == old(Trace) && traceProgressCount == old(traceProgressCount)
    {
      TotalProcessed := TotalProcessed + processed;
      if traceProgressPoint > 0 {
        traceProgressCount := traceProgressCount + processed;
        if traceProgressCount >= traceProgressPoint {
          traceProgressCount := 0;
          NotDoneShape(".");
          NotDoneLine(Trace, ".");
          Trace := Trace + ["."];
        }
      }
    }

    /** Writes the message between brackets. */
    method IterationFailed(message: string)
      requires Valid()
      modifies this
      ensures Valid()
      ensures Trace == old(Trace) + [" [" + message + "] "]
      ensures TotalProcessed == old(TotalProcessed) && operationComplete == old(operationComplete)
      ensures traceProgressCount == old(traceProgressCount) && traceProgressPoint == old(traceProgressPoint)
    {
      NotDoneShape(" [" + message + "] ");
      NotDoneLine(Trace, " [" + message + "] ");
      Trace := Trace + [" [" + message + "] "];
    }

    /** The closing line, with the total when dots are on, written only the
        first time and only when the operation has not failed. */
    method OperationComplete()
      requires Valid()
      modifies this
      ensures Valid()
      ensures operationComplete
      ensures Trace == old(Trace) + (if old(operationComplete) then [] else [DoneMessage(traceProgressPoint, TotalProcessed)])
      ensures TotalProcessed == old(TotalProcessed)
      ensures traceProgressCount == old(traceProgressCount) && traceProgressPoint == old(traceProgressPoint)
    {
      if !operationComplete {
        var line := if traceProgressPoint > 0 then "Done [" + IntToString(TotalProcessed) + "]." + NewLine else "Done." + NewLine;
        assert line == DoneMessage(traceProgressPoint, TotalProcessed);
        assert Trace[..|Trace|] == Trace;
        DoneMessageIsDoneLine(traceProgressPoint, TotalProcessed);
        Trace := Trace + [line];
        assert Trace[..|Trace| - 1] == old(Trace);
        operationComplete := true;
      }
    }

    /** Dispose closes the operation. */
    method Dispose()
      requires Valid()
      modifies this
      ensures Valid()
      ensures operationComplete
      ensures Trace == old(Trace) + (if old(operationComplete) then [] else [DoneMessage(traceProgressPoint, TotalProcessed)])
      ensures TotalProcessed == old(TotalProcessed)
      ensures traceProgressCount == old(traceProgressCount) && traceProgressPoint == old(traceProgressPoint)
    {
      OperationComplete();
    }

    /** Writes "Failed: " and the message, and marks the operation complete
        so that no closing line follows. */
    method OperationFailed(message: string)
      requires Valid()
      modifies this
      ensures Valid()
      ensures operationComplete
      ensures Trace == old(Trace) + ["Failed: " + message + NewLine]
      ensures TotalProcessed == old(TotalProcessed)
      ensures traceProgressCount == old(traceProgressCount) && traceProgressPoint == old(traceProgressPoint)
    {
      NotDoneShape("Failed: " + message + NewLine);
      NotDoneLine(Trace, "Failed: " + message + NewLine);
      Trace := Trace + ["Failed: " + message + NewLine];
      operationComplete := true;
    }

    /** Writes the message and "...". */
    method WriteInfo(message: string)
      requires Valid()
      modifies this
      ensures Valid()
      ensures Trace == old(Trace) + [message + "..."]
      ensures TotalProcessed == old(TotalProcessed) && operationComplete == old(operationComplete)
      ensures traceProgressCount == old(traceProgressCount) && traceProgressPoint == old(traceProgressPoint)
    {
      NotDoneShape(message + "...");
      NotDoneLine(Trace, message + "...");
      Trace := Trace + [message + "..."];
    }
  }

  /** The closing line OperationComplete writes. */
  function DoneMessage(traceProgressPoint: int, totalProcessed: int): (line: string)
    ensures IsDoneLine(line)
  {
    DoneMessageIsDoneLine(traceProgressPoint, totalProcessed);
    if traceProgressPoint > 0 then "Done [" + IntToString(totalProcessed) + "]." + NewLine else "Done." + NewLine
  }

  lemma DoneMessageIsDoneLine(traceProgressPoint: int, totalProcessed: int)
    ensures IsDoneLine(if traceProgressPoint > 0 then "Done [" + IntToString(totalProcessed) + "]." + NewLine else "Done." + NewLine)
  {
    var body := if traceProgressPoint > 0 then "Done [" + IntToString(totalProcessed) + "]." else "Done.";
    var line := body + NewLine;
    assert line[..4] == body[..4] == "Done";
    assert line[|line| - |NewLine|..] == NewLine;
  }

  /** Appending anything but a closing line keeps the count of closing
      lines. */
  lemma NotDoneLine(trace: seq<string>, entry: string)
    requires !IsDoneLine(entry)
    ensures DoneLines(trace + [entry]) == DoneLines(trace)
  {
    assert (trace + [entry])[..|trace|] == trace;
  }

  /** A closing line starts with 'D' and ends with a line feed. */
  lemma NotDoneShape(entry: string)
    requires entry == [] || entry[0] != 'D' || entry[|entry| - 1] != '\n'
    ensures !IsDoneLine(entry)
  {
    if |entry| >= 4 + |NewLine| {
      assert entry[..4][0] == entry[0];
      assert entry[|entry| - |NewLine|..][|NewLine| - 1] == entry[|entry| - 1];
    }
  }

  /** However the reporter is used, at most one closing line is written,
      and after a failure none is. */
  lemma AtMostOneDone(r: Reporter)
    requires r.Valid()
    ensures DoneLines(r.Trace) <= 1
    ensures !r.operationComplete ==> DoneLines(r.Trace) == 0
  {
  }
}
