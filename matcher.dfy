/**
 * One request as `matchurl` / `matchurl_log` see it: the request line is
 * scanned into the four global field buffers, the URL is classified, and the
 * reply (and, when logging, one audit record) is produced.
 */
module Matcher {
  import opened Scanf
  import opened Rules

  /** The global buffers `url`, `src_address`, `ident` and `method`. */
  datatype Request = Request(url: string, srcAddress: string, ident: string, httpMethod: string)

  /** Widths of `%255s %255s %255s %31s`: each buffer's size less its NUL. */
  const RequestWidths: seq<nat> := [255, 255, 255, 31]

  /** Size of the shared `line` buffer (mbfsiz) the reply is written into. */
  const LineBufferSize := 800

  /** The buffers as C initialises them: all empty. */
  const NoRequest := Request("", "", "", "")

  /** What the buffer sizes guarantee of the fields. */
  predicate Bounded(req: Request) {
    |req.url| <= 255 && |req.srcAddress| <= 255 && |req.ident| <= 255 && |req.httpMethod| <= 31
  }

  /**
   * The fields after `sscanf` has read the C string in `line` (the buffer up
   * to its first NUL): a field it assigns gets the scanned word; a field it
   * does not reach keeps the previous request's value.
   */
  function Parse(line: string, prev: Request): (req: Request)
  {
    Assigned(Scan(CString(line), RequestWidths), prev)
  }

  /** The buffers once the words `w` have been stored in format order. */
  function Assigned(w: seq<string>, prev: Request): Request
  {
    Request(
      if |w| > 0 then w[0] else prev.url,
      if |w| > 1 then w[1] else prev.srcAddress,
      if |w| > 2 then w[2] else prev.ident,
      if |w| > 3 then w[3] else prev.httpMethod)
  }

  /**
   * The `sscanf` call of `matchurl`: the request line is scanned, then each
   * conversion that succeeded overwrites its buffer.  `Parse` is what it
   * computes, and the lemmas below are stated about `Parse`.
   */
  method Sscanf(line: string, prev: Request) returns (req: Request)
    requires Bounded(prev)
    ensures req == Parse(line, prev) && Bounded(req)
  {
    var c := CString(line);
    var w := Scan(c, RequestWidths);
    forall i | 0 <= i < |w| ensures |w[i]| <= RequestWidths[i] {
      ScanFits(c, RequestWidths, i);
    }
    req := Store(w, prev);
  }

  /** Store the words `sscanf` converted, buffer by buffer, in format order. */
  method Store(w: seq<string>, prev: Request) returns (req: Request)
    requires |w| <= |RequestWidths| && forall i :: 0 <= i < |w| ==> |w[i]| <= RequestWidths[i]
    requires Bounded(prev)
    ensures req == Assigned(w, prev) && Bounded(req)
  {
    req := prev;
    if |w| > 0 { req := req.(url := w[0]); }
    if |w| > 1 { req := req.(srcAddress := w[1]); }
    if |w| > 2 { req := req.(ident := w[2]); }
    if |w| > 3 { req := req.(httpMethod := w[3]); }
  }

  /** The string `matchurl` returns: empty, or the redirect line built by `sprintf`. */
  function Reply(lib: Libc, rules: RuleSet, req: Request): (r: string)
    ensures r != "" <==> Decide(lib, rules, req.url).Denied?
  {
    match Decide(lib, rules, req.url)
    case Denied(k) =>
      rules.block[k].redirect + " " + req.srcAddress + " " + req.ident + " " + req.httpMethod
    case _ => ""
  }

  /** The records `matchurl_log` writes to the log file for this URL. */
  function Audit(lib: Libc, rules: RuleSet, url: string): (records: seq<string>)
    ensures |records| <= 1
    ensures records == [] <==> Decide(lib, rules, url).Unmatched?
  {
    match Decide(lib, rules, url)
    case Allowed(i) => ["pass " + Decimal(rules.allow[i].line) + " " + url + "\n"]
    case Denied(k) => ["deny " + Decimal(rules.block[k].line) + " " + url + "\n"]
    case Unmatched => []
  }

  /** The fields stay within their buffers, whatever line is read. */
  lemma ParseBounded(line: string, prev: Request)
    requires Bounded(prev)
    ensures Bounded(Parse(line, prev))
  {
    var c := CString(line);
    var w := Scan(c, RequestWidths);
    forall i | 0 <= i < |w| ensures |w[i]| <= RequestWidths[i] {
      ScanFits(c, RequestWidths, i);
    }
  }

  /**
   * A line of four words that fit their buffers, separated by blanks and
   * ended by nothing or whitespace, fills all four fields with those words.
   */
  lemma ParseWellFormed(url: string, src: string, ident: string, m: string, tail: string, prev: Request)
    requires 0 < |url| <= 255 && 0 < |src| <= 255 && 0 < |ident| <= 255 && 0 < |m| <= 31
    requires IsWord(url) && IsWord(src) && IsWord(ident) && IsWord(m)
    requires '\0' !in url && '\0' !in src && '\0' !in ident && '\0' !in m
    requires tail == [] || IsSpace(tail[0])
    ensures Parse(url + " " + src + " " + ident + " " + m + tail, prev) == Request(url, src, ident, m)
  {
    var ws := [url, src, ident, m];
    assert Unwords([m]) == m;
    assert Unwords([ident, m]) == ident + " " + m by {
      assert [ident, m][1..] == [m];
    }
    assert Unwords([src, ident, m]) == src + " " + (ident + " " + m) by {
      assert [src, ident, m][1..] == [ident, m];
    }
    assert Unwords(ws) == url + " " + src + " " + ident + " " + m by {
      assert ws[1..] == [src, ident, m];
    }
    var u := Unwords(ws);
    assert '\0' !in u;
    CStringAppend(u, tail);
    CStringStartsBlank(tail);
    ScanUnwords(ws, RequestWidths, CString(tail));
  }

  /** A line with four words or more leaves nothing of the previous request. */
  lemma ParseFullLine(line: string, p: Request, q: Request)
    requires |Scan(CString(line), RequestWidths)| == 4
    ensures Parse(line, p) == Parse(line, q)
  {
  }

  /** A line blank up to its first NUL assigns nothing: the previous request is classified again. */
  lemma ParseBlankLine(line: string, prev: Request)
    requires AllSpace(CString(line))
    ensures Parse(line, prev) == prev
  {
    ScanBlank(CString(line), RequestWidths);
  }

  /** An allow rule that matches the URL forces the empty reply, whatever the block rules say. */
  lemma AllowWins(lib: Libc, rules: RuleSet, req: Request, i: nat)
    requires i < |rules.allow| && lib.matches(rules.allow[i].pattern, req.url)
    ensures Reply(lib, rules, req) == ""
    ensures var j := Decide(lib, rules, req.url).index;
      && j <= i && lib.matches(rules.allow[j].pattern, req.url)
      && Audit(lib, rules, req.url) == ["pass " + Decimal(rules.allow[j].line) + " " + req.url + "\n"]
  {
  }

  /** With no allow rule matching, the first matching block rule builds the reply. */
  lemma FirstBlockDecides(lib: Libc, rules: RuleSet, req: Request, k: nat)
    requires forall i :: 0 <= i < |rules.allow| ==> !lib.matches(rules.allow[i].pattern, req.url)
    requires k < |rules.block| && lib.matches(rules.block[k].pattern, req.url)
    requires forall j :: 0 <= j < k ==> !lib.matches(rules.block[j].pattern, req.url)
    ensures Reply(lib, rules, req) ==
      rules.block[k].redirect + " " + req.srcAddress + " " + req.ident + " " + req.httpMethod
    ensures Audit(lib, rules, req.url) ==
      ["deny " + Decimal(rules.block[k].line) + " " + req.url + "\n"]
  {
  }

  /** A URL no rule matches passes, and nothing is logged for it. */
  lemma ImplicitPass(lib: Libc, rules: RuleSet, req: Request)
    requires forall i :: 0 <= i < |rules.allow| ==> !lib.matches(rules.allow[i].pattern, req.url)
    requires forall i :: 0 <= i < |rules.block| ==> !lib.matches(rules.block[i].pattern, req.url)
    ensures Reply(lib, rules, req) == "" && Audit(lib, rules, req.url) == []
  {
  }

  /** Of two rules of one list that both match, the later one never decides. */
  lemma EarlierRuleWins(lib: Libc, rules: RuleSet, url: string, i: nat, j: nat)
    requires i < j
    ensures (j < |rules.allow| && lib.matches(rules.allow[i].pattern, url) &&
             lib.matches(rules.allow[j].pattern, url)) ==> Decide(lib, rules, url) != Allowed(j)
    ensures (j < |rules.block| && lib.matches(rules.block[i].pattern, url) &&
             lib.matches(rules.block[j].pattern, url)) ==> Decide(lib, rules, url) != Denied(j)
  {
  }

  /**
   * One audit record exactly when some rule matched, naming that rule's
   * config line; the reply is non-empty exactly when a block rule decided.
   */
  lemma AuditAgreesWithReply(lib: Libc, rules: RuleSet, req: Request)
    ensures var v := Decide(lib, rules, req.url);
      && (|Audit(lib, rules, req.url)| == if v.Unmatched? then 0 else 1)
      && (Reply(lib, rules, req) != "" <==> v.Denied?)
      && (v.Allowed? ==>
            Audit(lib, rules, req.url)[0] ==
              "pass " + Decimal(rules.allow[v.index].line) + " " + req.url + "\n")
  {
  }

  /**
   * The longest reply is 255 + 1 + 255 + 1 + 255 + 1 + 31 = 799 characters,
   * so with its NUL it fits the 800-byte `line` buffer `sprintf` writes.
   */
  lemma ReplyFits(lib: Libc, rules: RuleSet, req: Request)
    requires WellFormed(lib, rules) && Bounded(req)
    ensures |Reply(lib, rules, req)| < LineBufferSize
  {
  }
}
