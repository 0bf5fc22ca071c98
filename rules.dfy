/**
 * Allow and block rules and the decision the redirector takes for one URL:
 * allow rules are searched first, in list order, then block rules; the first
 * rule whose pattern matches decides, and a URL no rule matches passes.
 */
module Rules {
  import opened Wrappers

  /**
   * The C library calls the engine depends on, taken as given:
   *  - compiles(p): regcomp accepts p as a case-insensitive extended
   *    regular expression (REG_EXTENDED | REG_ICASE | REG_NOSUB);
   *  - matches(p, u): regexec of the compiled p finds a match in u;
   *  - allocates(n): malloc grants the list node built for config line n.
   */
  datatype Libc = Libc(
    compiles: string -> bool,
    matches: (string, string) -> bool,
    allocates: nat -> bool)

  /** A node of the `allow` list (struct ul): a pattern and its config line. */
  datatype AllowRule = AllowRule(pattern: string, line: nat)

  /** A node of the `block` list (struct up): a pattern, the redirect URL, the config line. */
  datatype BlockRule = BlockRule(pattern: string, redirect: string, line: nat)

  /** Both lists, in insertion order. */
  datatype RuleSet = RuleSet(allow: seq<AllowRule>, block: seq<BlockRule>)

  /** Size of the `redir` buffer of a block node, less its terminating NUL. */
  const MaxRedirect := 255

  /** What the loader guarantees of every rule it keeps. */
  ghost predicate WellFormed(lib: Libc, rules: RuleSet) {
    (forall i :: 0 <= i < |rules.allow| ==> lib.compiles(rules.allow[i].pattern)) &&
    (forall i :: 0 <= i < |rules.block| ==>
       lib.compiles(rules.block[i].pattern) && |rules.block[i].redirect| <= MaxRedirect)
  }

  /** Index of the first element of `rules` that `hit` accepts, if any. */
  function FirstMatch<R>(rules: seq<R>, hit: R -> bool): (r: Option<nat>)
    ensures r.Some? ==>
      r.value < |rules| && hit(rules[r.value]) &&
      forall j :: 0 <= j < r.value ==> !hit(rules[j])
    ensures r.None? ==> forall j :: 0 <= j < |rules| ==> !hit(rules[j])
  {
    if rules == [] then None
    else if hit(rules[0]) then Some(0)
    else
      match FirstMatch(rules[1..], hit)
      case None => None
      case Some(k) => Some(k + 1)
  }

  /** Which list, and which position in it, decided a URL. */
  datatype Verdict = Unmatched | Allowed(index: nat) | Denied(index: nat)

  function AllowHit(lib: Libc, url: string): AllowRule -> bool {
    (r: AllowRule) => lib.matches(r.pattern, url)
  }

  function BlockHit(lib: Libc, url: string): BlockRule -> bool {
    (r: BlockRule) => lib.matches(r.pattern, url)
  }

  /** The search `matchurl` and `matchurl_log` perform. */
  function Decide(lib: Libc, rules: RuleSet, url: string): (v: Verdict)
    ensures v.Allowed? <==>
      exists i :: 0 <= i < |rules.allow| && lib.matches(rules.allow[i].pattern, url)
    ensures v.Allowed? ==>
      v.index < |rules.allow| && lib.matches(rules.allow[v.index].pattern, url) &&
      forall j :: 0 <= j < v.index ==> !lib.matches(rules.allow[j].pattern, url)
    ensures v.Denied? ==>
      (forall i :: 0 <= i < |rules.allow| ==> !lib.matches(rules.allow[i].pattern, url)) &&
      v.index < |rules.block| && lib.matches(rules.block[v.index].pattern, url) &&
      forall j :: 0 <= j < v.index ==> !lib.matches(rules.block[j].pattern, url)
    ensures v.Unmatched? <==>
      (forall i :: 0 <= i < |rules.allow| ==> !lib.matches(rules.allow[i].pattern, url)) &&
      (forall i :: 0 <= i < |rules.block| ==> !lib.matches(rules.block[i].pattern, url))
  {
    match FirstMatch(rules.allow, AllowHit(lib, url))
    case Some(i) => Allowed(i)
    case None =>
      match FirstMatch(rules.block, BlockHit(lib, url))
      case Some(k) => Denied(k)
      case None => Unmatched
  }

  /** `%d` of a non-negative int: decimal digits, no sign, no leading zero. */
  function Decimal(n: nat): (s: string)
    ensures |s| >= 1 && IsDigits(s)
    ensures |s| > 1 ==> s[0] != '0'
  {
    if n < 10 then [Digit(n)] else Decimal(n / 10) + [Digit(n % 10)]
  }

  function Digit(d: nat): (c: char)
    requires d < 10
  {
    "0123456789"[d]
  }

  predicate IsDigits(s: string) {
    forall i :: 0 <= i < |s| ==> '0' <= s[i] <= '9'
  }

  /** The number a string of decimal digits denotes. */
  function DecimalValue(s: string): nat
    requires IsDigits(s)
  {
    if s == [] then 0
    else DecimalValue(s[..|s| - 1]) * 10 + (s[|s| - 1] as int - '0' as int)
  }

  /** A line number written to the log reads back as the same number. */
  lemma {:induction false} DecimalRoundTrip(n: nat)
    ensures DecimalValue(Decimal(n)) == n
  {
    var s := Decimal(n);
    if n >= 10 {
      DecimalRoundTrip(n / 10);
      assert s[..|s| - 1] == Decimal(n / 10);
    }
  }
}
