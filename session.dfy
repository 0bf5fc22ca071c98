/**
 * The request loop of `main`: every line read from standard input is handed
 * to the matcher and its reply is written back followed by a newline.  The
 * field buffers are globals, so what a request line does not assign is
 * carried over from the lines before it.
 */
module Session {
  import opened Scanf
  import opened Rules
  import opened Matcher

  /** The field buffers after the lines `ins` have been read, starting from `prev`. */
  function Carried(prev: Request, ins: seq<string>): Request
  {
    if ins == [] then prev
    else Parse(ins[|ins| - 1], Carried(prev, ins[..|ins| - 1]))
  }

  /** The lines written to standard output for the input lines `ins`. */
  function Responses(lib: Libc, rules: RuleSet, prev: Request, ins: seq<string>): (out: seq<string>)
    ensures |out| == |ins|
  {
    if ins == [] then []
    else
      Responses(lib, rules, prev, ins[..|ins| - 1]) + [Reply(lib, rules, Carried(prev, ins)) + "\n"]
  }

  /** The records written to the log file for the input lines `ins`. */
  function AuditTrail(lib: Libc, rules: RuleSet, prev: Request, ins: seq<string>): seq<string>
  {
    if ins == [] then []
    else
      AuditTrail(lib, rules, prev, ins[..|ins| - 1]) + Audit(lib, rules, Carried(prev, ins).url)
  }

  /** Reading one more line: the buffers, the output and the log each grow by that line's share. */
  lemma NextLine(lib: Libc, rules: RuleSet, prev: Request, ins: seq<string>, k: nat)
    requires k < |ins|
    ensures Carried(prev, ins[..k + 1]) == Parse(ins[k], Carried(prev, ins[..k]))
    ensures Responses(lib, rules, prev, ins[..k + 1]) ==
      Responses(lib, rules, prev, ins[..k]) + [Reply(lib, rules, Carried(prev, ins[..k + 1])) + "\n"]
    ensures AuditTrail(lib, rules, prev, ins[..k + 1]) ==
      AuditTrail(lib, rules, prev, ins[..k]) + Audit(lib, rules, Carried(prev, ins[..k + 1]).url)
  {
    assert ins[..k + 1][..k] == ins[..k];
  }

  /**
   * One request read by the logging loop: the fields become those carried
   * through line `k`, and the output and the log each grow by that line's share.
   */
  lemma NextLoggedLine(lib: Libc, rules: RuleSet, prev: Request, ins: seq<string>, k: nat,
                       before: Request, after: Request, reply: string,
                       base: seq<string>, log0: seq<string>, log1: seq<string>)
    requires k < |ins|
    requires before == Carried(prev, ins[..k]) && after == Parse(ins[k], before)
    requires reply == Reply(lib, rules, after)
    requires log0 == base + AuditTrail(lib, rules, prev, ins[..k])
    requires log1 == log0 + Audit(lib, rules, after.url)
    ensures after == Carried(prev, ins[..k + 1])
    ensures Responses(lib, rules, prev, ins[..k + 1]) == Responses(lib, rules, prev, ins[..k]) + [reply + "\n"]
    ensures log1 == base + AuditTrail(lib, rules, prev, ins[..k + 1])
  {
    NextLine(lib, rules, prev, ins, k);
    AppendStep(base, log0, log1, AuditTrail(lib, rules, prev, ins[..k]),
               AuditTrail(lib, rules, prev, ins[..k + 1]), Audit(lib, rules, after.url));
  }

  /** A log that has the records of a step appended, as the trail does. */
  lemma AppendStep<T>(base: seq<T>, log0: seq<T>, log1: seq<T>, trail0: seq<T>, trail1: seq<T>, step: seq<T>)
    requires log0 == base + trail0 && log1 == log0 + step && trail1 == trail0 + step
    ensures log1 == base + trail1
  {
  }

  /** The `k`-th output line answers the `k`-th input line, with the fields as they stand after it. */
  lemma {:induction false} ResponseAt(lib: Libc, rules: RuleSet, prev: Request, ins: seq<string>, k: nat)
    requires k < |ins|
    ensures Responses(lib, rules, prev, ins)[k] == Reply(lib, rules, Carried(prev, ins[..k + 1])) + "\n"
    decreases |ins|
  {
    if k < |ins| - 1 {
      ResponseAt(lib, rules, prev, ins[..|ins| - 1], k);
      EarlierResponse(lib, rules, prev, ins, k);
      PrefixOfInit(ins, k);
    } else {
      LastResponse(lib, rules, prev, ins);
    }
  }

  lemma PrefixOfInit<T>(xs: seq<T>, k: nat)
    requires k < |xs| - 1
    ensures xs[..|xs| - 1][..k + 1] == xs[..k + 1]
  {
  }

  /** The last output line answers the last input line. */
  lemma LastResponse(lib: Libc, rules: RuleSet, prev: Request, ins: seq<string>)
    requires ins != []
    ensures Responses(lib, rules, prev, ins)[|ins| - 1] == Reply(lib, rules, Carried(prev, ins[..|ins|])) + "\n"
  {
    assert ins[..|ins|] == ins;
  }

  /** Reading more lines leaves the earlier output lines as they were. */
  lemma EarlierResponse(lib: Libc, rules: RuleSet, prev: Request, ins: seq<string>, k: nat)
    requires k < |ins| - 1
    ensures Responses(lib, rules, prev, ins)[k] == Responses(lib, rules, prev, ins[..|ins| - 1])[k]
  {
  }

  /** At most one log record per input line. */
  lemma {:induction false} AuditTrailLength(lib: Libc, rules: RuleSet, prev: Request, ins: seq<string>)
    ensures |AuditTrail(lib, rules, prev, ins)| <= |ins|
    decreases |ins|
  {
    if ins != [] {
      AuditTrailLength(lib, rules, prev, ins[..|ins| - 1]);
      AuditAgreesWithReply(lib, rules, Carried(prev, ins));
    }
  }

  /** The fields never outgrow their buffers. */
  lemma {:induction false} CarriedBounded(prev: Request, ins: seq<string>)
    requires Bounded(prev)
    ensures Bounded(Carried(prev, ins))
    decreases |ins|
  {
    if ins != [] {
      CarriedBounded(prev, ins[..|ins| - 1]);
      ParseBounded(ins[|ins| - 1], Carried(prev, ins[..|ins| - 1]));
    }
  }

  /**
   * Fields carry over only through short lines: once the first line has
   * all four words, nothing of the state before the session is visible.
   */
  lemma {:induction false} FullFirstLineForgets(p: Request, q: Request, ins: seq<string>)
    requires |ins| > 0 && |Scan(CString(ins[0]), RequestWidths)| == 4
    ensures Carried(p, ins) == Carried(q, ins)
    decreases |ins|
  {
    if |ins| == 1 {
      ParseFullLine(ins[0], p, q);
    } else {
      FullFirstLineForgets(p, q, ins[..|ins| - 1]);
    }
  }

  /** Hence the whole output and log of such a session do not depend on the earlier state. */
  lemma {:induction false} FullFirstLineSameSession(lib: Libc, rules: RuleSet, p: Request, q: Request, ins: seq<string>)
    requires |ins| > 0 && |Scan(CString(ins[0]), RequestWidths)| == 4
    ensures Responses(lib, rules, p, ins) == Responses(lib, rules, q, ins)
    ensures AuditTrail(lib, rules, p, ins) == AuditTrail(lib, rules, q, ins)
    decreases |ins|
  {
    FullFirstLineForgets(p, q, ins);
    if |ins| > 1 {
      var init := ins[..|ins| - 1];
      assert init[0] == ins[0];
      FullFirstLineSameSession(lib, rules, p, q, init);
    }
  }
}
