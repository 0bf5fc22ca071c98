/**
 * The redirector process: its global state (the `allow` and `block` lists,
 * the request field buffers, the log file) as one object, and the functions
 * of url_rew.c that change that state as methods on it.
 */
module UrlRew {
  import opened Wrappers
  import opened Scanf
  import opened Rules
  import opened Matcher
  import opened Config
  import opened Session

  /** EXIT_SUCCESS / EXIT_FAILURE of an `add_*` call, with the cause of a failure. */
  datatype Status = Success | Failure(error: LoadError)

  const ExitSuccess := 0
  const ExitFailure := 1

  /** The whole file as `readfile` sees it: an open failure, or the lines read. */
  function LoadFile(lib: Libc, file: Option<seq<string>>): Result<RuleSet, LoadError> {
    match file
    case None => Err(OpenFailed)
    case Some(lines) => Load(lib, Kinds(lines), |lines|)
  }

  class Redirector {
    /** The C library the process runs against. */
    const lib: Libc

    /** The `allow` list (struct ul nodes), head first. */
    var allow: seq<AllowRule>
    /** The `block` list (struct up nodes), head first. */
    var block: seq<BlockRule>

    /** The global buffers `url`, `src_address`, `ident`, `method`. */
    var url: string
    var srcAddress: string
    var ident: string
    var httpMethod: string

    /** Everything written to the log file, one record per element. */
    var log: seq<string>

    function Rules(): RuleSet
      reads this
    {
      RuleSet(allow, block)
    }

    function Fields(): Request
      reads this
    {
      Request(url, srcAddress, ident, httpMethod)
    }

    /** Every rule compiled with a redirect that fits its node; every field fits its buffer. */
    ghost predicate Valid()
      reads this
    {
      WellFormed(lib, Rules()) && Bounded(Fields())
    }

    /** The state at process start: empty lists, zeroed buffers, nothing logged. */
    constructor (lib: Libc)
      ensures this.lib == lib && Valid()
      ensures Rules() == RuleSet([], []) && Fields() == NoRequest && log == []
    {
      this.lib := lib;
      allow, block := [], [];
      url, srcAddress, ident, httpMethod := "", "", "", "";
      log := [];
    }

    /** `add_blockurl`: append a deny rule at the tail of the block list. */
    method AddBlockUrl(ourl: string, nurl: string, no: nat) returns (status: Status)
      requires Valid()
      requires |nurl| <= MaxRedirect
      modifies this
      ensures Valid()
      ensures status.Success? <==> lib.allocates(no) && lib.compiles(ourl)
      ensures !lib.allocates(no) ==> status == Failure(OutOfMemory(no))
      ensures lib.allocates(no) && !lib.compiles(ourl) ==> status == Failure(BadPattern(no, ourl))
      ensures block == if status.Success? then old(block) + [BlockRule(ourl, nurl, no)] else old(block)
      ensures allow == old(allow) && Fields() == old(Fields()) && log == old(log)
    {
      if !lib.allocates(no) {
        return Failure(OutOfMemory(no));
      }
      if !lib.compiles(ourl) {
        return Failure(BadPattern(no, ourl));
      }
      block := block + [BlockRule(ourl, nurl, no)];
      return Success;
    }

    /** `add_allowurl`: append a pass rule at the tail of the allow list. */
    method AddAllowUrl(ourl: string, no: nat) returns (status: Status)
      requires Valid()
      modifies this
      ensures Valid()
      ensures status.Success? <==> lib.allocates(no) && lib.compiles(ourl)
      ensures !lib.allocates(no) ==> status == Failure(OutOfMemory(no))
      ensures lib.allocates(no) && !lib.compiles(ourl) ==> status == Failure(BadPattern(no, ourl))
      ensures allow == if status.Success? then old(allow) + [AllowRule(ourl, no)] else old(allow)
      ensures block == old(block) && Fields() == old(Fields()) && log == old(log)
    {
      if !lib.allocates(no) {
        return Failure(OutOfMemory(no));
      }
      if !lib.compiles(ourl) {
        return Failure(BadPattern(no, ourl));
      }
      allow := allow + [AllowRule(ourl, no)];
      return Success;
    }

    /** `freeurls`: release the block list, then the allow list, node by node from the head. */
    method FreeUrls()
      requires Valid()
      modifies this
      ensures Valid()
      ensures Rules() == RuleSet([], [])
      ensures Fields() == old(Fields()) && log == old(log)
    {
      while block != []
        invariant allow == old(allow) && Fields() == old(Fields()) && log == old(log)
        decreases |block|
      {
        block := block[1..];
      }
      while allow != []
        invariant block == [] && Fields() == old(Fields()) && log == old(log)
        decreases |allow|
      {
        allow := allow[1..];
      }
    }

    /**
     * The body of the `readfile` loop for line `no`: skip it, or scan it as
     * a pass rule (`%1s%255s`) or a deny rule (`%255s %255s`) and hand the
     * words to `add_allowurl` / `add_blockurl`.
     */
    method ReadLine(line: string, no: nat) returns (status: Status)
      requires Valid()
      modifies this
      ensures Valid()
      ensures Fields() == old(Fields()) && log == old(log)
      ensures match AddLine(lib, old(Rules()), ClassifyLine(line), no)
        case Ok(rules) => status == Success && Rules() == rules
        case Err(e) => status == Failure(e) && Rules() == old(Rules())
    {
      var c := CString(line);
      if |c| <= 1 || c[0] == '#' {
        return Success;
      }
      if c[0] == '~' {
        var w := Scan(c, PassWidths);
        if |w| != 2 {
          return Failure(BadFormat(no));
        }
        status := AddAllowUrl(w[1], no);
        return;
      }
      var w := Scan(c, DenyWidths);
      if |w| != 2 {
        return Failure(BadFormat(no));
      }
      ScanFits(c, DenyWidths, 1);
      status := AddBlockUrl(w[0], w[1], no);
    }

    /**
     * `readfile`: replace the rules by those of the file.  A file that
     * cannot be opened changes nothing; any other failure leaves both lists
     * empty.  Either way the process then exits with failure.
     */
    method ReadFile(file: Option<seq<string>>) returns (status: Status)
      requires Valid()
      modifies this
      ensures Valid()
      ensures Fields() == old(Fields()) && log == old(log)
      ensures file.None? ==> status == Failure(OpenFailed) && Rules() == old(Rules())
      ensures file.Some? ==>
        match LoadFile(lib, file)
        case Ok(rules) => status == Success && Rules() == rules
        case Err(e) => status == Failure(e) && Rules() == RuleSet([], [])
    {
      if file.None? {
        return Failure(OpenFailed);
      }
      var lines := file.value;
      FreeUrls();
      var i := 1;
      while i <= |lines|
        invariant 1 <= i <= |lines| + 1
        invariant Valid() && Fields() == old(Fields()) && log == old(log)
        invariant Load(lib, Kinds(lines), i - 1) == Ok(Rules())
      {
        status := ReadLine(lines[i - 1], i);
        if status.Failure? {
          FreeUrls();
          LoadErrorSticks(lib, Kinds(lines), i, |lines|);
          return;
        }
        i := i + 1;
      }
      return Success;
    }

    /**
     * The `sscanf` call of `matchurl`: each conversion that succeeds
     * overwrites its buffer; the buffers after the last one keep their value.
     */
    method ScanRequest(line: string)
      requires Valid()
      modifies this
      ensures Valid()
      ensures Fields() == Parse(line, old(Fields()))
      ensures Rules() == old(Rules()) && log == old(log)
    {
      var req := Sscanf(line, Fields());
      SetFields(req);
    }

    /** Store the scanned fields in the four global buffers. */
    method SetFields(req: Request)
      requires WellFormed(lib, Rules()) && Bounded(req)
      modifies this
      ensures Valid() && Fields() == req
      ensures Rules() == old(Rules()) && log == old(log)
    {
      url, srcAddress, ident, httpMethod := req.url, req.srcAddress, req.ident, req.httpMethod;
    }

    /**
     * The rule search shared by `matchurl` and `matchurl_log`: the allow list
     * from its head, then the block list; the first rule whose pattern
     * matches the URL buffer decides.
     */
    method Search() returns (v: Verdict)
      ensures v == Decide(lib, Rules(), url)
    {
      var k := 0;
      while k < |allow|
        invariant k <= |allow|
        invariant forall j :: 0 <= j < k ==> !lib.matches(allow[j].pattern, url)
      {
        if lib.matches(allow[k].pattern, url) {
          return Allowed(k);
        }
        k := k + 1;
      }
      k := 0;
      while k < |block|
        invariant k <= |block|
        invariant forall j :: 0 <= j < k ==> !lib.matches(block[j].pattern, url)
      {
        if lib.matches(block[k].pattern, url) {
          return Denied(k);
        }
        k := k + 1;
      }
      return Unmatched;
    }

    /**
     * `matchurl`: scan the request line into the field buffers and answer
     * with the redirect line of the first matching block rule, unless some
     * allow rule matches; the empty string when nothing matches.
     */
    method MatchUrl(line: string) returns (reply: string)
      requires Valid()
      modifies this
      ensures Valid()
      ensures Fields() == Parse(line, old(Fields()))
      ensures Rules() == old(Rules()) && log == old(log)
      ensures reply == Reply(lib, Rules(), Fields())
      ensures |reply| < LineBufferSize
    {
      ScanRequest(line);
      ReplyFits(lib, Rules(), Fields());
      var v := Search();
      if v.Denied? {
        reply := block[v.index].redirect + " " + srcAddress + " " + ident + " " + httpMethod;
      } else {
        reply := "";
      }
    }

    /**
     * `matchurl_log`: the same reply as `matchurl`, and one record
     * `pass <line> <url>` or `deny <line> <url>` appended to the log when a
     * rule matched.
     */
    method MatchUrlLog(line: string) returns (reply: string)
      requires Valid()
      modifies this
      ensures Valid()
      ensures Fields() == Parse(line, old(Fields()))
      ensures Rules() == old(Rules())
      ensures reply == Reply(lib, Rules(), Fields())
      ensures |reply| < LineBufferSize
      ensures log == old(log) + Audit(lib, Rules(), url)
    {
      ScanRequest(line);
      ReplyFits(lib, Rules(), Fields());
      var v := Search();
      match v
      case Allowed(i) =>
        log := log + ["pass " + Decimal(allow[i].line) + " " + url + "\n"];
        reply := "";
      case Denied(k) =>
        reply := block[k].redirect + " " + srcAddress + " " + ident + " " + httpMethod;
        log := log + ["deny " + Decimal(block[k].line) + " " + url + "\n"];
      case Unmatched =>
        reply := "";
    }

    /**
     * The request loop of `main` without a log file: answer every input
     * line with `matchurl`, each reply followed by a newline.
     */
    method Serve(inputs: seq<string>) returns (outputs: seq<string>)
      requires Valid()
      modifies this
      ensures Valid() && Rules() == old(Rules()) && log == old(log)
      ensures outputs == Responses(lib, Rules(), old(Fields()), inputs)
      ensures Fields() == Carried(old(Fields()), inputs)
    {
      outputs := [];
      var k := 0;
      while k < |inputs|
        invariant k <= |inputs|
        invariant Valid() && Rules() == old(Rules()) && log == old(log)
        invariant Fields() == Carried(old(Fields()), inputs[..k])
        invariant outputs == Responses(lib, Rules(), old(Fields()), inputs[..k])
      {
        NextLine(lib, Rules(), old(Fields()), inputs, k);
        var reply := MatchUrl(inputs[k]);
        outputs := outputs + [reply + "\n"];
        k := k + 1;
      }
      assert inputs[..k] == inputs;
    }

    /**
     * The request loop of `main` with a log file: the same replies, by
     * `matchurl_log`, which also appends the audit records.
     */
    method ServeLog(inputs: seq<string>) returns (outputs: seq<string>)
      requires Valid()
      modifies this
      ensures Valid() && Rules() == old(Rules())
      ensures outputs == Responses(lib, Rules(), old(Fields()), inputs)
      ensures Fields() == Carried(old(Fields()), inputs)
      ensures log == old(log) + AuditTrail(lib, Rules(), old(Fields()), inputs)
    {
      ghost var start, log0, rules := Fields(), log, Rules();
      outputs := [];
      var k := 0;
      while k < |inputs|
        invariant k <= |inputs|
        invariant Valid() && Rules() == rules
        invariant Fields() == Carried(start, inputs[..k])
        invariant outputs == Responses(lib, rules, start, inputs[..k])
        invariant log == log0 + AuditTrail(lib, rules, start, inputs[..k])
      {
        label Step:
        var reply := MatchUrlLog(inputs[k]);
        NextLoggedLine(lib, rules, start, inputs, k, old@Step(Fields()), Fields(), reply, log0, old@Step(log), log);
        outputs := outputs + [reply + "\n"];
        k := k + 1;
      }
      assert inputs[..k] == inputs;
    }

    /**
     * `main` once its arguments are read: load the rules, answer the input
     * until it ends, release the rules, and exit with success; a load
     * failure exits with failure before any input is read.
     */
    method Run(file: Option<seq<string>>, inputs: seq<string>, logging: bool)
      returns (exitCode: int, outputs: seq<string>)
      requires Valid()
      modifies this
      ensures Valid()
      ensures match LoadFile(lib, file)
        case Err(_) =>
          && exitCode == ExitFailure && outputs == []
          && log == old(log) && Fields() == old(Fields())
        case Ok(rules) =>
          && exitCode == ExitSuccess
          && outputs == Responses(lib, rules, old(Fields()), inputs)
          && Fields() == Carried(old(Fields()), inputs)
          && log == old(log) + (if logging then AuditTrail(lib, rules, old(Fields()), inputs) else [])
          && Rules() == RuleSet([], [])
    {
      var status := ReadFile(file);
      if status.Failure? {
        return ExitFailure, [];
      }
      if logging {
        outputs := ServeLog(inputs);
      } else {
        outputs := Serve(inputs);
      }
      FreeUrls();
      return ExitSuccess, outputs;
    }
  }
}
