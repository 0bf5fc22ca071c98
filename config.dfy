/**
 * The configuration file as `readfile` reads it: line `i` (1-based, counting
 * every line read) is skipped when it is at most one character long or starts
 * with '#', is a pass rule `~ pattern` when it starts with '~', and is a deny
 * rule `pattern redirect` otherwise.  The first line that cannot be turned
 * into a rule stops the load.
 */
module Config {
  import opened Wrappers
  import opened Scanf
  import opened Rules

  /** What one configuration line is. */
  datatype LineKind =
    | Ignored
    | PassRule(pattern: string)
    | DenyRule(pattern: string, redirect: string)
    | Invalid

  /** `%1s%255s`: the '~' marker, then the pattern. */
  const PassWidths: seq<nat> := [1, 255]

  /** `%255s %255s`: the pattern, then the redirect URL. */
  const DenyWidths: seq<nat> := [255, 255]

  /**
   * What `readfile` makes of one line, judged on the C string the buffer
   * holds: skipped when `strlen` is at most one or it starts with '#'; a
   * pass rule whose pattern is the second word of `%1s%255s` when it starts
   * with '~'; otherwise a deny rule whose pattern and redirect are the two
   * words of `%255s %255s`; invalid when the scan yields fewer than two words.
   */
  function ClassifyLine(line: string): (k: LineKind)
    ensures var c := CString(line);
      k.Ignored? <==> |c| <= 1 || c[0] == '#'
    ensures var c := CString(line);
      k.PassRule? ==>
        |c| > 1 && c[0] == '~' &&
        |Scan(c, PassWidths)| == 2 && Scan(c, PassWidths)[1] == k.pattern &&
        0 < |k.pattern| <= 255 && IsWord(k.pattern)
    ensures var c := CString(line);
      k.DenyRule? ==>
        |c| > 1 && c[0] != '#' && c[0] != '~' &&
        Scan(c, DenyWidths) == [k.pattern, k.redirect] &&
        0 < |k.pattern| <= 255 && IsWord(k.pattern) &&
        0 < |k.redirect| <= MaxRedirect && IsWord(k.redirect)
    ensures var c := CString(line);
      k.Invalid? <==>
        |c| > 1 && c[0] != '#' &&
        |Scan(c, if c[0] == '~' then PassWidths else DenyWidths)| < 2
  {
    var c := CString(line);
    if |c| <= 1 || c[0] == '#' then Ignored
    else if c[0] == '~' then PassKind(c)
    else DenyKind(c)
  }

  /** A line starting with '~', scanned with `%1s%255s`. */
  function PassKind(c: string): (k: LineKind)
    ensures k.PassRule? || k.Invalid?
    ensures k.Invalid? <==> |Scan(c, PassWidths)| < 2
    ensures k.PassRule? ==>
      |Scan(c, PassWidths)| == 2 && Scan(c, PassWidths)[1] == k.pattern &&
      0 < |k.pattern| <= 255 && IsWord(k.pattern)
  {
    var w := Scan(c, PassWidths);
    if |w| < 2 then Invalid
    else
      ScanFits(c, PassWidths, 1);
      PassRule(w[1])
  }

  /** Any other line, scanned with `%255s %255s`. */
  function DenyKind(c: string): (k: LineKind)
    ensures k.DenyRule? || k.Invalid?
    ensures k.Invalid? <==> |Scan(c, DenyWidths)| < 2
    ensures k.DenyRule? ==>
      Scan(c, DenyWidths) == [k.pattern, k.redirect] &&
      0 < |k.pattern| <= 255 && IsWord(k.pattern) &&
      0 < |k.redirect| <= MaxRedirect && IsWord(k.redirect)
  {
    var w := Scan(c, DenyWidths);
    if |w| < 2 then Invalid
    else
      ScanFits(c, DenyWidths, 0);
      ScanFits(c, DenyWidths, 1);
      DenyRule(w[0], w[1])
  }

  /** Whitespace holds no NUL. */
  lemma SpaceNoNul(gap: string)
    requires AllSpace(gap)
    ensures '\0' !in gap
  {
  }

  /** The last word of a rule line, followed by its terminator, scans as that word alone. */
  lemma ScanLastWord(w: string, t: string)
    requires 0 < |w| <= 255 && IsWord(w)
    requires t == [] || IsSpace(t[0])
    ensures Scan(w + t, [255]) == [w]
  {
    SkipWord(w, t, 255);
    ScanStep(w + t, [255], w, t);
  }

  /** `%1s%255s` on `~`, blanks, a pattern and a terminator. */
  lemma ScanPassLine(gap: string, p: string, t: string)
    requires AllSpace(gap)
    requires 0 < |p| <= 255 && IsWord(p)
    requires t == [] || IsSpace(t[0])
    ensures Scan("~" + (gap + (p + t)), PassWidths) == ["~", p]
  {
    var rest := gap + (p + t);
    SkipWord("~", rest, 1);
    ScanStep("~" + rest, PassWidths, "~", rest);
    assert PassWidths[1..] == [255];
    SkipSpaces(gap, p + t, [255]);
    ScanLastWord(p, t);
  }

  /** `%255s %255s` on a pattern, blanks, a redirect and a terminator. */
  lemma ScanDenyLine(p: string, gap: string, r: string, t: string)
    requires 0 < |p| <= 255 && IsWord(p)
    requires gap != [] && AllSpace(gap)
    requires 0 < |r| <= 255 && IsWord(r)
    requires t == [] || IsSpace(t[0])
    ensures Scan(p + (gap + (r + t)), DenyWidths) == [p, r]
  {
    var rest := gap + (r + t);
    assert rest[0] == gap[0];
    SkipWord(p, rest, 255);
    ScanStep(p + rest, DenyWidths, p, rest);
    assert DenyWidths[1..] == [255];
    SkipSpaces(gap, r + t, [255]);
    ScanLastWord(r, t);
  }

  /**
   * Round trip of the pass-rule grammar: `~`, optional blanks, a pattern of
   * at most 255 characters, then the line's end, loads as a pass rule with
   * exactly that pattern.
   */
  lemma ClassifyPassLine(gap: string, p: string, tail: string)
    requires AllSpace(gap)
    requires 0 < |p| <= 255 && IsWord(p) && '\0' !in p
    requires tail == [] || IsSpace(tail[0])
    ensures ClassifyLine("~" + gap + p + tail) == PassRule(p)
  {
    SpaceNoNul(gap);
    var a := "~" + gap + p;
    assert '\0' !in a;
    CStringAppend(a, tail);
    CStringStartsBlank(tail);
    var t := CString(tail);
    assert CString("~" + gap + p + tail) == "~" + (gap + (p + t));
    ScanPassLine(gap, p, t);
  }

  /**
   * Round trip of the deny-rule grammar: a pattern that does not start with
   * '#' or '~', blanks, a redirect, then the line's end, loads as a deny rule
   * with exactly that pattern and redirect.
   */
  lemma ClassifyDenyLine(p: string, gap: string, r: string, tail: string)
    requires 0 < |p| <= 255 && IsWord(p) && '\0' !in p && p[0] != '#' && p[0] != '~'
    requires gap != [] && AllSpace(gap)
    requires 0 < |r| <= 255 && IsWord(r) && '\0' !in r
    requires tail == [] || IsSpace(tail[0])
    ensures ClassifyLine(p + gap + r + tail) == DenyRule(p, r)
  {
    SpaceNoNul(gap);
    var a := p + gap + r;
    assert '\0' !in a;
    CStringAppend(a, tail);
    CStringStartsBlank(tail);
    var t := CString(tail);
    assert CString(p + gap + r + tail) == p + (gap + (r + t));
    ScanDenyLine(p, gap, r, t);
  }

  /** Why a load stopped; each is fatal to the process in the source. */
  datatype LoadError =
    | OpenFailed
    | BadFormat(line: nat)
    | OutOfMemory(line: nat)
    | BadPattern(line: nat, pattern: string)

  /** Line `no`, classified as `kind`, applied to the rules built so far: what `add_allowurl` / `add_blockurl` do. */
  function AddLine(lib: Libc, rules: RuleSet, kind: LineKind, no: nat): (r: Result<RuleSet, LoadError>)
    ensures r.Ok? <==> Accepts(lib, kind, no)
    ensures r.Ok? ==> rules.allow <= r.value.allow && rules.block <= r.value.block
    ensures r.Ok? ==> |r.value.allow| + |r.value.block| == |rules.allow| + |rules.block| + (if kind.Ignored? then 0 else 1)
    ensures r.Err? ==> !r.error.OpenFailed? && r.error.line == no
    ensures r.Ok? && kind.PassRule? ==>
      r.value == RuleSet(rules.allow + [AllowRule(kind.pattern, no)], rules.block)
    ensures r.Ok? && kind.DenyRule? ==>
      r.value == RuleSet(rules.allow, rules.block + [BlockRule(kind.pattern, kind.redirect, no)])
    ensures r.Ok? && kind.Ignored? ==> r.value == rules
  {
    match kind
    case Ignored => Ok(rules)
    case Invalid => Err(BadFormat(no))
    case PassRule(p) =>
      if !lib.allocates(no) then Err(OutOfMemory(no))
      else if !lib.compiles(p) then Err(BadPattern(no, p))
      else Ok(RuleSet(rules.allow + [AllowRule(p, no)], rules.block))
    case DenyRule(p, r) =>
      if !lib.allocates(no) then Err(OutOfMemory(no))
      else if !lib.compiles(p) then Err(BadPattern(no, p))
      else Ok(RuleSet(rules.allow, rules.block + [BlockRule(p, r, no)]))
  }

  /** The classification of every line of the file, in order. */
  function Kinds(lines: seq<string>): (kinds: seq<LineKind>)
    ensures |kinds| == |lines|
    ensures forall i :: 0 <= i < |lines| ==> kinds[i] == ClassifyLine(lines[i])
  {
    seq(|lines|, i requires 0 <= i < |lines| => ClassifyLine(lines[i]))
  }

  /** The rules after the first `n` classified lines, starting from empty lists. */
  function Load(lib: Libc, kinds: seq<LineKind>, n: nat): Result<RuleSet, LoadError>
    requires n <= |kinds|
  {
    if n == 0 then Ok(RuleSet([], []))
    else
      match Load(lib, kinds, n - 1)
      case Err(e) => Err(e)
      case Ok(rules) => AddLine(lib, rules, kinds[n - 1], n)
  }

  /** Whether line `no` can be loaded: it is skipped, or its node is allocated and its pattern compiles. */
  predicate Accepts(lib: Libc, kind: LineKind, no: nat) {
    match kind
    case Ignored => true
    case Invalid => false
    case PassRule(p) => lib.allocates(no) && lib.compiles(p)
    case DenyRule(p, _) => lib.allocates(no) && lib.compiles(p)
  }

  /**
   * Reference definition: the pass rules among the first `n` classified
   * lines, in file order, each numbered with its 1-based line.
   */
  function PassLines(kinds: seq<LineKind>, n: nat): seq<AllowRule>
    requires n <= |kinds|
  {
    if n == 0 then []
    else
      PassLines(kinds, n - 1) +
        match kinds[n - 1]
        case PassRule(p) => [AllowRule(p, n)]
        case _ => []
  }

  /** Reference definition: the deny rules among the first `n` classified lines, likewise. */
  function DenyLines(kinds: seq<LineKind>, n: nat): seq<BlockRule>
    requires n <= |kinds|
  {
    if n == 0 then []
    else
      DenyLines(kinds, n - 1) +
        match kinds[n - 1]
        case DenyRule(p, r) => [BlockRule(p, r, n)]
        case _ => []
  }

  /** A load succeeds exactly when every line is accepted. */
  lemma {:induction false} LoadSucceedsIff(lib: Libc, kinds: seq<LineKind>, n: nat)
    requires n <= |kinds|
    ensures Load(lib, kinds, n).Ok? <==>
      forall k :: 0 <= k < n ==> Accepts(lib, kinds[k], k + 1)
  {
    if n > 0 {
      LoadSucceedsIff(lib, kinds, n - 1);
      assert (forall k :: 0 <= k < n ==> Accepts(lib, kinds[k], k + 1)) <==>
        (forall k :: 0 <= k < n - 1 ==> Accepts(lib, kinds[k], k + 1)) && Accepts(lib, kinds[n - 1], n);
    }
  }

  /**
   * A successful load holds exactly the pass lines as allow rules and the
   * deny lines as block rules, each list in file order, each rule carrying
   * the 1-based number of the line it came from.
   */
  lemma {:induction false} LoadCollectsRules(lib: Libc, kinds: seq<LineKind>, n: nat)
    requires n <= |kinds|
    requires Load(lib, kinds, n).Ok?
    ensures Load(lib, kinds, n).value == RuleSet(PassLines(kinds, n), DenyLines(kinds, n))
  {
    if n > 0 {
      LoadCollectsRules(lib, kinds, n - 1);
    }
  }

  /** Once a line fails, the load stays failed with that line's error. */
  lemma {:induction false} LoadErrorSticks(lib: Libc, kinds: seq<LineKind>, m: nat, n: nat)
    requires m <= n <= |kinds|
    requires Load(lib, kinds, m).Err?
    ensures Load(lib, kinds, n) == Load(lib, kinds, m)
    decreases n
  {
    if n > m {
      LoadErrorSticks(lib, kinds, m, n - 1);
    }
  }

  /** Line `k + 1` is the first line not accepted, and the lines before it loaded. */
  predicate FailsAt(lib: Libc, kinds: seq<LineKind>, k: nat)
    requires k < |kinds|
  {
    !Accepts(lib, kinds[k], k + 1) &&
    (forall j :: 0 <= j < k ==> Accepts(lib, kinds[j], j + 1)) &&
    Load(lib, kinds, k).Ok?
  }

  /** The error of a failed load is the one of the first line that is not accepted. */
  lemma {:induction false} LoadFailsAtFirstBadLine(lib: Libc, kinds: seq<LineKind>, n: nat)
    requires n <= |kinds|
    requires Load(lib, kinds, n).Err?
    ensures exists k :: 0 <= k < n && FailsAt(lib, kinds, k) &&
                        Load(lib, kinds, n) == AddLine(lib, Load(lib, kinds, k).value, kinds[k], k + 1)
  {
    if Load(lib, kinds, n - 1).Err? {
      LoadFailsAtFirstBadLine(lib, kinds, n - 1);
      var k :| 0 <= k < n - 1 && FailsAt(lib, kinds, k) &&
        Load(lib, kinds, n - 1) == AddLine(lib, Load(lib, kinds, k).value, kinds[k], k + 1);
      assert Load(lib, kinds, n) == Load(lib, kinds, n - 1);
    } else {
      LoadSucceedsIff(lib, kinds, n - 1);
      assert FailsAt(lib, kinds, n - 1);
    }
  }

  /** Allow rules come out in strictly increasing line order, each from a line among the first `n`. */
  lemma {:induction false} PassLinesOrdered(kinds: seq<LineKind>, n: nat)
    requires n <= |kinds|
    ensures forall i :: 0 <= i < |PassLines(kinds, n)| ==> 1 <= PassLines(kinds, n)[i].line <= n
    ensures forall i, j :: 0 <= i < j < |PassLines(kinds, n)| ==>
      PassLines(kinds, n)[i].line < PassLines(kinds, n)[j].line
  {
    if n > 0 {
      PassLinesOrdered(kinds, n - 1);
      var prev := PassLines(kinds, n - 1);
      var all := PassLines(kinds, n);
      assert forall i :: 0 <= i < |all| ==> all[i] == if i < |prev| then prev[i] else AllowRule(kinds[n - 1].pattern, n);
    }
  }

  /** Block rules come out in strictly increasing line order, each from a line among the first `n`. */
  lemma {:induction false} DenyLinesOrdered(kinds: seq<LineKind>, n: nat)
    requires n <= |kinds|
    ensures forall i :: 0 <= i < |DenyLines(kinds, n)| ==> 1 <= DenyLines(kinds, n)[i].line <= n
    ensures forall i, j :: 0 <= i < j < |DenyLines(kinds, n)| ==>
      DenyLines(kinds, n)[i].line < DenyLines(kinds, n)[j].line
  {
    if n > 0 {
      DenyLinesOrdered(kinds, n - 1);
      var prev := DenyLines(kinds, n - 1);
      var all := DenyLines(kinds, n);
      assert forall i :: 0 <= i < |all| ==>
        all[i] == if i < |prev| then prev[i] else BlockRule(kinds[n - 1].pattern, kinds[n - 1].redirect, n);
    }
  }

  /** Every redirect URL read from a deny line fits the 256-byte `nurl` buffer. */
  predicate RedirectsFit(kinds: seq<LineKind>) {
    forall i :: 0 <= i < |kinds| && kinds[i].DenyRule? ==> |kinds[i].redirect| <= MaxRedirect
  }

  /** What `%255s` guarantees of the lines of any file. */
  lemma KindsFit(lines: seq<string>)
    ensures RedirectsFit(Kinds(lines))
  {
  }

  /** Every rule a load keeps compiles and its redirect fits the node's buffer. */
  lemma {:induction false} LoadWellFormed(lib: Libc, kinds: seq<LineKind>, n: nat)
    requires n <= |kinds| && RedirectsFit(kinds)
    requires Load(lib, kinds, n).Ok?
    ensures WellFormed(lib, Load(lib, kinds, n).value)
  {
    if n > 0 {
      LoadWellFormed(lib, kinds, n - 1);
    }
  }
}
