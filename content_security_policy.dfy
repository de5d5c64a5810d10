/** The policy builder: a mutable map from directive to its duplicate-free values,
    validated against the grammar tables and rendered in registry order. */
module Csp {
  import opened Wrappers
  import opened PhpStrings
  import opened PhpArrays
  import opened CspGrammar

  const ModeStrict := 0
  const ModeLoose := 1
  const OutputFullHeader := 0
  const OutputValueOnly := 1

  const HeaderName := "Content-Security-Policy: "
  const ReportOnlyHeaderName := "Content-Security-Policy-Report-Only: "

  /** `$directives`: the values stored under each directive, in first-insertion order. */
  type Directives = map<Directive, seq<string>>

  /** `^'.*'$`: the value is shaped like a quoted source-list item. */
  predicate IsSourceListItem(v: string) {
    |v| >= 2 && v[0] == '\'' && v[|v| - 1] == '\''
  }

  /** `trim(strtolower($directive))` */
  function NormaliseDirective(name: string): string {
    Trim(Lower(name))
  }

  /** The directives whose handler takes a `null` value. */
  predicate AcceptsNull(d: Directive) {
    d == Sandbox || d == UpgradeInsecureRequests
  }

  /** A `null` value only ever reaches the sandbox and upgrade-insecure-requests
      handlers, or none when the name is rejected first; the basic handler's
      `string $value` refuses it. */
  predicate NullPermitted(name: string, value: Option<string>) {
    value.Some? ||
    match DirectiveNamed(NormaliseDirective(name))
    case None => true
    case Some(d) => AcceptsNull(d)
  }

  /** What one call leaves behind: the directives afterwards, and whether it threw. */
  datatype Step = Step(directives: Directives, outcome: Outcome<CspError>)

  /** `addToBasicDirective`: a quoted value must pass the allowlist of its directive;
      one that fails throws in strict mode and is dropped in any other. */
  function BasicStep(ds: Directives, mode: int, d: Directive, v: string): Step {
    if IsSourceListItem(v) && !AllowedItem(d, v) then
      Step(ds, if mode == ModeStrict then Fail(InvalidSourceListItem(v, d)) else Pass)
    else
      Step(StoreValue(ds, d, v), Pass)
  }

  /** `addToSandbox`: the sandbox entry is created first, whatever happens next;
      a value outside the sandbox options throws in every mode. */
  function SandboxStep(ds: Directives, v: Option<string>): Step {
    var created := if Sandbox in ds then ds else ds[Sandbox := []];
    match v
    case None => Step(created, Pass)
    case Some(x) =>
      if x in SandboxOptions then Step(StoreValue(created, Sandbox, x), Pass)
      else Step(created, Fail(InvalidSourceListItem(x, Sandbox)))
  }

  /** The `switch` of `addToDirective`, once the directive is known to be registered. */
  function Apply(ds: Directives, mode: int, d: Directive, value: Option<string>): Step
    requires value.Some? || AcceptsNull(d)
  {
    if d == Sandbox then SandboxStep(ds, value)
    else if d == UpgradeInsecureRequests then Step(ds[d := []], Pass)
    else BasicStep(ds, mode, d, value.value)
  }

  /** `addToDirective($name, $value)` on the directives `ds` in mode `mode`. */
  function AddStep(ds: Directives, mode: int, name: string, value: Option<string>): Step
    requires NullPermitted(name, value)
  {
    var n := NormaliseDirective(name);
    match DirectiveNamed(n)
    case None => Step(ds, Fail(InvalidDirective(n)))
    case Some(d) => Apply(ds, mode, d, value)
  }

  /** The invariant of the directives: no value twice, only sandbox options under
      `sandbox`, nothing under `upgrade-insecure-requests`, and every quoted value
      allowed for its directive. */
  ghost predicate WellFormed(ds: Directives) {
    && (forall d :: d in ds ==> NoDup(ds[d]))
    && (Sandbox in ds ==> forall v :: v in ds[Sandbox] ==> v in SandboxOptions)
    && (UpgradeInsecureRequests in ds ==> ds[UpgradeInsecureRequests] == [])
    && (forall d, v :: d in ds && d != Sandbox && v in ds[d] && IsSourceListItem(v) ==> AllowedItem(d, v))
  }

  /** `trim($directive . ' ' . implode(' ', $values)) . '; '` */
  function Segment(d: Directive, vs: seq<string>): string {
    Trim(Name(d) + " " + Join(' ', vs)) + "; "
  }

  /** The segments of the directives of `dirs` that are present in `ds`, in the order of `dirs`. */
  function Segments(ds: Directives, dirs: seq<Directive>): string {
    if dirs == [] then ""
    else (if dirs[0] in ds then Segment(dirs[0], ds[dirs[0]]) else "") + Segments(ds, dirs[1..])
  }

  /** `__toString()`: the present directives in registry order, behind the header
      name in full-header mode. */
  function Render(ds: Directives, reportOnly: bool, outputMode: int): string {
    var body := Trim(Segments(ds, ValidDirectives));
    if outputMode == OutputFullHeader then
      (if reportOnly then ReportOnlyHeaderName else HeaderName) + body
    else
      body
  }

  /** The `foreach` of `__toString()`: the segments of the present directives, in order. */
  method AppendSegments(ds: Directives, dirs: seq<Directive>) returns (output: string)
    ensures output == Segments(ds, dirs)
  {
    output := "";
    for i := 0 to |dirs|
      invariant output + Segments(ds, dirs[i..]) == Segments(ds, dirs)
    {
      var directive := dirs[i];
      if directive in ds {
        SegmentsPresent(ds, dirs, i, output);
        output := output + Segment(directive, ds[directive]);
      } else {
        SegmentsAbsent(ds, dirs, i, output);
      }
    }
    assert dirs[|dirs|..] == [];
  }

  class ContentSecurityPolicy {
    var directives: Directives
    var mode: int
    var reportOnly: bool
    var outputMode: int

    ghost predicate Valid()
      reads this
    {
      WellFormed(directives)
    }

    /** `new ContentSecurityPolicy($mode)` for a mode the constructor accepts. */
    constructor (mode: int)
      requires mode == ModeStrict || mode == ModeLoose
      ensures Valid()
      ensures directives == map[] && this.mode == mode
      ensures !reportOnly && outputMode == OutputFullHeader
    {
      directives := map[];
      this.mode := mode;
      reportOnly := false;
      outputMode := OutputFullHeader;
    }

    /** `new ContentSecurityPolicy($mode)`, throwing for a mode other than strict or loose. */
    static method New(mode: int) returns (r: Result<ContentSecurityPolicy, CspError>)
      ensures r.Failure? <==> mode != ModeStrict && mode != ModeLoose
      ensures r.Failure? ==> r.error == InvalidArgument("Invalid mode specified")
      ensures r.Success? ==> fresh(r.value) && r.value.Valid()
      ensures r.Success? ==> r.value.directives == map[] && r.value.mode == mode
      ensures r.Success? ==> !r.value.reportOnly && r.value.outputMode == OutputFullHeader
    {
      if mode != ModeStrict && mode != ModeLoose {
        return Failure(InvalidArgument("Invalid mode specified"));
      }
      var csp := new ContentSecurityPolicy(mode);
      return Success(csp);
    }

    /** `addToDirective($directive, $value)` */
    method AddToDirective(directive: string, value: Option<string>) returns (outcome: Outcome<CspError>)
      requires Valid() && NullPermitted(directive, value)
      modifies this`directives
      ensures Valid()
      ensures Step(directives, outcome) == AddStep(old(directives), mode, directive, value)
    {
      var d := Trim(Lower(directive));
      var found := DirectiveNamed(d);
      if found.None? {
        return Fail(InvalidDirective(d));
      }
      if found.value == Sandbox {
        outcome := AddToSandbox(value);
      } else if found.value == UpgradeInsecureRequests {
        AddNoValueDirective(UpgradeInsecureRequests);
        outcome := Pass;
      } else {
        outcome := AddToBasicDirective(found.value, value.value);
      }
    }

    /** `addToBasicDirective($directive, $value)` */
    method AddToBasicDirective(directive: Directive, value: string) returns (outcome: Outcome<CspError>)
      requires Valid() && !AcceptsNull(directive)
      modifies this`directives
      ensures Valid()
      ensures Step(directives, outcome) == BasicStep(old(directives), mode, directive, value)
    {
      if IsSourceListItem(value) {
        var patterns := PatternsFor(directive);
        if !MatchesAny(patterns, Lower(value)) {
          if mode == ModeStrict {
            return Fail(InvalidSourceListItem(value, directive));
          } else {
            return Pass;
          }
        }
      }
      assert IsSourceListItem(value) ==> AllowedItem(directive, value);
      StorePreservesWellFormed(directives, directive, value);
      ghost var stored := StoreValue(directives, directive, value);
      if directive in directives {
        directives := directives[directive := Insert(directives[directive], value)];
      } else {
        directives := directives[directive := [value]];
      }
      assert directives == stored;
      return Pass;
    }

    /** `addToSandbox($value)` */
    method AddToSandbox(value: Option<string>) returns (outcome: Outcome<CspError>)
      requires Valid()
      modifies this`directives
      ensures Valid()
      ensures Step(directives, outcome) == SandboxStep(old(directives), value)
    {
      SandboxStepPreservesWellFormed(directives, value);
      if Sandbox !in directives {
        directives := directives[Sandbox := []];
      }
      outcome := Pass;
      if value.Some? {
        if value.value in SandboxOptions {
          directives := directives[Sandbox := Insert(directives[Sandbox], value.value)];
        } else {
          outcome := Fail(InvalidSourceListItem(value.value, Sandbox));
        }
      }
    }

    /** `addNoValueDirective($directive)`: the directive is reset to the empty set. */
    method AddNoValueDirective(directive: Directive)
      requires Valid()
      modifies this`directives
      ensures Valid()
      ensures directives == old(directives)[directive := []]
    {
      directives := directives[directive := []];
    }

    method SetReportOnly(reportOnly: bool)
      modifies this`reportOnly
      ensures this.reportOnly == reportOnly
    {
      this.reportOnly := reportOnly;
    }

    function IsReportOnly(): (r: bool)
      reads this
      ensures r == reportOnly
    {
      reportOnly
    }

    /** `getDirectives()`: a snapshot that satisfies the invariant. */
    function GetDirectives(): (r: Directives)
      reads this
      requires Valid()
      ensures r == directives && WellFormed(r)
    {
      directives
    }

    /** `getDirective($directive)`: the name is used as given, without normalisation,
        so only the exact registered spelling finds anything. */
    function GetDirective(directive: string): (r: Option<seq<string>>)
      reads this
      requires Valid()
      ensures forall d :: Name(d) == directive ==>
        (r.Some? <==> d in directives) && (r.Some? ==> r.value == directives[d])
      ensures (forall d :: Name(d) != directive) ==> r.None?
      ensures r.Some? ==> NoDup(r.value)
    {
      DirectiveNamedExactly(directive);
      match DirectiveNamed(directive)
      case None => None
      case Some(d) => if d in directives then Some(directives[d]) else None
    }

    function GetMode(): (r: int)
      reads this
      ensures r == mode
    {
      mode
    }

    /** `setMode($mode)`: any integer is accepted; the values already stored stay. */
    method SetMode(mode: int)
      requires Valid()
      modifies this`mode
      ensures Valid() && this.mode == mode
    {
      this.mode := mode;
    }

    function GetOutputMode(): (r: int)
      reads this
      ensures r == outputMode
    {
      outputMode
    }

    /** `setOutputMode($outputMode)`: any integer is accepted; only 0 means a full header. */
    method SetOutputMode(outputMode: int)
      modifies this`outputMode
      ensures this.outputMode == outputMode
    {
      this.outputMode := outputMode;
    }

    /** `__toString()` */
    method ToString() returns (s: string)
      ensures s == Render(directives, reportOnly, outputMode)
    {
      var output := AppendSegments(directives, ValidDirectives);
      if outputMode == OutputFullHeader {
        if reportOnly {
          s := ReportOnlyHeaderName + Trim(output);
        } else {
          s := HeaderName + Trim(output);
        }
      } else {
        s := Trim(output);
      }
    }
  }

  // ---------------------------------------------------------------------------
  // Dispatch on the normalised name

  /** The name is lower-cased and trimmed, then looked up in the registry: an
      unregistered name throws `InvalidDirective` with the normalised name and
      changes nothing, a registered one goes to the handler of its directive. */
  lemma AddStepDispatch(ds: Directives, mode: int, name: string, value: Option<string>)
    requires NullPermitted(name, value)
    ensures (forall d :: Name(d) != NormaliseDirective(name)) ==>
      AddStep(ds, mode, name, value) == Step(ds, Fail(InvalidDirective(NormaliseDirective(name))))
    ensures forall d :: Name(d) == NormaliseDirective(name) ==>
      (value.Some? || AcceptsNull(d)) && AddStep(ds, mode, name, value) == Apply(ds, mode, d, value)
  {
    DirectiveNamedExactly(NormaliseDirective(name));
  }

  /** Letter case makes no difference to the directive name. */
  lemma NormaliseIgnoresCase(name: string)
    ensures NormaliseDirective(Lower(name)) == NormaliseDirective(name)
  {
    LowerIdempotent(name);
  }

  /** A registered name, spelled as registered, normalises to itself. */
  lemma NormaliseRegisteredName(d: Directive)
    ensures NormaliseDirective(Name(d)) == Name(d)
  {
    NameShape(d);
    NormaliseLowerWord(Name(d));
  }

  lemma NormaliseLowerWord(n: string)
    requires n != [] && 'a' <= n[0] <= 'z' && 'a' <= n[|n| - 1] <= 'z'
    requires IsLowerWord(n)
    ensures NormaliseDirective(n) == n
  {
    LowerNoop(n);
    TrimNoop(n);
  }

  /** A call that names a directive by its registered spelling runs that directive's handler. */
  lemma AddByName(ds: Directives, mode: int, d: Directive, value: Option<string>)
    requires value.Some? || AcceptsNull(d)
    ensures NullPermitted(Name(d), value)
    ensures AddStep(ds, mode, Name(d), value) == Apply(ds, mode, d, value)
  {
    NormaliseRegisteredName(d);
    NamedRoundTrip(d);
  }

  /** An unregistered name throws `InvalidDirective` in every mode and changes nothing. */
  lemma AddUnknownDirective(ds: Directives, mode: int, name: string, value: Option<string>)
    requires forall d :: Name(d) != NormaliseDirective(name)
    ensures NullPermitted(name, value)
    ensures AddStep(ds, mode, name, value) == Step(ds, Fail(InvalidDirective(NormaliseDirective(name))))
  {
    DirectiveNamedExactly(NormaliseDirective(name));
  }

  // ---------------------------------------------------------------------------
  // The handlers

  /** A handler throws exactly when a sandbox value is not a sandbox option (in any
      mode), or when a quoted value fails the allowlist in strict mode. */
  lemma ApplyFailsExactly(ds: Directives, mode: int, d: Directive, value: Option<string>)
    requires value.Some? || AcceptsNull(d)
    ensures Apply(ds, mode, d, value).outcome.Fail? <==>
      || (d == Sandbox && value.Some? && value.value !in SandboxOptions)
      || (!AcceptsNull(d) && IsSourceListItem(value.value) && !AllowedItem(d, value.value) && mode == ModeStrict)
  {
  }

  /** A value that is not quoted is always stored under a basic directive, after
      the values already there, and afterwards occurs there exactly once. */
  lemma ApplyUnquotedValue(ds: Directives, mode: int, d: Directive, v: string)
    requires WellFormed(ds) && !AcceptsNull(d) && !IsSourceListItem(v)
    ensures var r := Apply(ds, mode, d, Some(v));
      && r.outcome == Pass
      && d in r.directives
      && r.directives[d] == Insert(Lookup(ds, d), v)
      && multiset(r.directives[d])[v] == 1
  {
    StoredOnce(ds, d, v);
  }

  /** A quoted value ends up under its basic directive exactly when the directive's
      allowlist accepts it. */
  lemma ApplyQuotedValue(ds: Directives, mode: int, d: Directive, v: string)
    requires WellFormed(ds) && !AcceptsNull(d) && IsSourceListItem(v)
    ensures var r := Apply(ds, mode, d, Some(v));
      (d in r.directives && v in r.directives[d]) <==> AllowedItem(d, v)
  {
  }

  /** A quoted value the allowlist rejects changes nothing (the directive is not even
      created); it throws `InvalidSourceListItem` in strict mode and is silently
      dropped in any other mode. */
  lemma ApplyRejectedValue(ds: Directives, mode: int, d: Directive, v: string)
    requires !AcceptsNull(d) && IsSourceListItem(v) && !AllowedItem(d, v)
    ensures var r := Apply(ds, mode, d, Some(v));
      && r.directives == ds
      && (mode == ModeStrict ==> r.outcome == Fail(InvalidSourceListItem(v, d)))
      && (mode != ModeStrict ==> r.outcome == Pass)
  {
  }

  /** `sandbox` is present after every call on it, also when the call throws; a value
      outside the sandbox options throws in every mode, a `null` adds nothing and an
      option is stored once after the options already there. */
  lemma ApplySandbox(ds: Directives, mode: int, value: Option<string>)
    ensures var r := Apply(ds, mode, Sandbox, value);
      && Sandbox in r.directives
      && (forall d :: d != Sandbox ==> AgreeOn(ds, r.directives, d))
      && (value.None? ==> r.outcome == Pass && r.directives[Sandbox] == Lookup(ds, Sandbox))
      && (value.Some? && value.value !in SandboxOptions ==>
            r.outcome == Fail(InvalidSourceListItem(value.value, Sandbox))
            && r.directives[Sandbox] == Lookup(ds, Sandbox))
      && (value.Some? && value.value in SandboxOptions ==>
            r.outcome == Pass && r.directives[Sandbox] == Insert(Lookup(ds, Sandbox), value.value))
  {
  }

  /** `upgrade-insecure-requests` is reset to the empty set whatever the value. */
  lemma ApplyUpgradeInsecureRequests(ds: Directives, mode: int, value: Option<string>)
    ensures Apply(ds, mode, UpgradeInsecureRequests, value) == Step(ds[UpgradeInsecureRequests := []], Pass)
  {
  }

  /** `ds` and `ds'` hold the same entry (or none) for `d`. */
  predicate AgreeOn(ds: Directives, ds': Directives, d: Directive) {
    (d in ds <==> d in ds') && (d in ds ==> ds[d] == ds'[d])
  }

  /** Maps that agree on every key are equal. */
  lemma AgreeEverywhere(m: Directives, m': Directives)
    requires forall k :: AgreeOn(m, m', k)
    ensures m == m'
  {
    forall k | k in m ensures k in m' && m[k] == m'[k] {
      assert AgreeOn(m, m', k);
    }
    forall k | k in m' ensures k in m {
      assert AgreeOn(m, m', k);
    }
  }

  /** A handler for `d` leaves every other directive alone. */
  lemma ApplyFrame(ds: Directives, mode: int, d: Directive, value: Option<string>)
    requires value.Some? || AcceptsNull(d)
    ensures forall k :: k != d ==> AgreeOn(ds, Apply(ds, mode, d, value).directives, k)
  {
    if d == Sandbox {
      SandboxStepFrame(ds, value);
    } else if d != UpgradeInsecureRequests {
      BasicStepFrame(ds, mode, d, value.value);
    }
  }

  lemma BasicStepFrame(ds: Directives, mode: int, d: Directive, v: string)
    ensures forall k :: k != d ==> AgreeOn(ds, BasicStep(ds, mode, d, v).directives, k)
  {
    var r := BasicStep(ds, mode, d, v).directives;
    if IsSourceListItem(v) && !AllowedItem(d, v) {
      assert r == ds;
    } else {
      assert r == StoreValue(ds, d, v);
      forall k | k != d
        ensures AgreeOn(ds, r, k)
      {
        assert k in r.Keys <==> k in ds.Keys;
      }
    }
  }

  lemma SandboxStepFrame(ds: Directives, v: Option<string>)
    ensures forall k :: k != Sandbox ==> AgreeOn(ds, SandboxStep(ds, v).directives, k)
  {
    var r := SandboxStep(ds, v).directives;
    var created := if Sandbox in ds then ds else ds[Sandbox := []];
    assert r == created || r == StoreValue(created, Sandbox, v.value);
  }

  /** A handler for `d` reads the entry of `d` only. */
  lemma ApplyLocal(ds: Directives, ds': Directives, mode: int, d: Directive, value: Option<string>)
    requires value.Some? || AcceptsNull(d)
    requires AgreeOn(ds, ds', d)
    ensures Apply(ds, mode, d, value).outcome == Apply(ds', mode, d, value).outcome
    ensures AgreeOn(Apply(ds, mode, d, value).directives, Apply(ds', mode, d, value).directives, d)
  {
    if d == Sandbox {
      SandboxStepLocal(ds, ds', value);
    } else if d != UpgradeInsecureRequests {
      BasicStepLocal(ds, ds', mode, d, value.value);
    }
  }

  lemma BasicStepLocal(ds: Directives, ds': Directives, mode: int, d: Directive, v: string)
    requires AgreeOn(ds, ds', d)
    ensures BasicStep(ds, mode, d, v).outcome == BasicStep(ds', mode, d, v).outcome
    ensures AgreeOn(BasicStep(ds, mode, d, v).directives, BasicStep(ds', mode, d, v).directives, d)
  {
    assert Lookup(ds, d) == Lookup(ds', d);
  }

  lemma SandboxStepLocal(ds: Directives, ds': Directives, v: Option<string>)
    requires AgreeOn(ds, ds', Sandbox)
    ensures SandboxStep(ds, v).outcome == SandboxStep(ds', v).outcome
    ensures AgreeOn(SandboxStep(ds, v).directives, SandboxStep(ds', v).directives, Sandbox)
  {
    assert Lookup(ds, Sandbox) == Lookup(ds', Sandbox);
  }

  /** `r` keeps every key of `ds`, with the old values in front and at most one new value after them. */
  ghost predicate Extends(ds: Directives, r: Directives) {
    forall k :: k in ds ==> k in r && |ds[k]| <= |r[k]| <= |ds[k]| + 1 && r[k][..|ds[k]|] == ds[k]
  }

  /** Values keep their first-insertion order: every directive but
      `upgrade-insecure-requests` keeps its values in front, with at most one after them. */
  lemma ApplyKeepsOrder(ds: Directives, mode: int, d: Directive, value: Option<string>)
    requires value.Some? || AcceptsNull(d)
    requires d != UpgradeInsecureRequests
    ensures Extends(ds, Apply(ds, mode, d, value).directives)
  {
  }

  /** Adding the same value twice is the same as adding it once, down to the outcome. */
  lemma ApplyIdempotent(ds: Directives, mode: int, d: Directive, value: Option<string>)
    requires value.Some? || AcceptsNull(d)
    ensures var once := Apply(ds, mode, d, value);
      Apply(once.directives, mode, d, value) == once
  {
    if !AcceptsNull(d) {
      StoreValueIdempotent(ds, d, value.value);
    } else if d == Sandbox && value.Some? && value.value in SandboxOptions {
      var created := if Sandbox in ds then ds else ds[Sandbox := []];
      StoreValueIdempotent(created, Sandbox, value.value);
    }
  }

  /** Handlers of two different directives commute: neither the directives nor the
      outcomes depend on the order of the calls. */
  lemma ApplyCommutes(ds: Directives, mode: int,
                      d1: Directive, v1: Option<string>, d2: Directive, v2: Option<string>)
    requires v1.Some? || AcceptsNull(d1)
    requires v2.Some? || AcceptsNull(d2)
    requires d1 != d2
    ensures var a := Apply(ds, mode, d1, v1); var b := Apply(ds, mode, d2, v2);
      && Apply(a.directives, mode, d2, v2).directives == Apply(b.directives, mode, d1, v1).directives
      && Apply(a.directives, mode, d2, v2).outcome == b.outcome
      && Apply(b.directives, mode, d1, v1).outcome == a.outcome
  {
    var a := Apply(ds, mode, d1, v1);
    var b := Apply(ds, mode, d2, v2);
    var ab := Apply(a.directives, mode, d2, v2);
    var ba := Apply(b.directives, mode, d1, v1);
    ApplyFrame(ds, mode, d1, v1);
    ApplyFrame(ds, mode, d2, v2);
    ApplyFrame(a.directives, mode, d2, v2);
    ApplyFrame(b.directives, mode, d1, v1);
    ApplyLocal(ds, a.directives, mode, d2, v2);
    ApplyLocal(ds, b.directives, mode, d1, v1);
    Diamond(ds, a.directives, b.directives, ab.directives, ba.directives, d1, d2);
  }

  /** Two changes confined to different keys, each reading only its own key, lead to the same map in either order. */
  lemma Diamond(ds: Directives, a: Directives, b: Directives, ab: Directives, ba: Directives, d1: Directive, d2: Directive)
    requires d1 != d2
    requires forall k :: k != d1 ==> AgreeOn(ds, a, k)
    requires forall k :: k != d2 ==> AgreeOn(ds, b, k)
    requires forall k :: k != d2 ==> AgreeOn(a, ab, k)
    requires forall k :: k != d1 ==> AgreeOn(b, ba, k)
    requires AgreeOn(b, ab, d2) && AgreeOn(a, ba, d1)
    ensures ab == ba
  {
    forall k
      ensures AgreeOn(ab, ba, k)
    {
      if k == d1 {
        assert AgreeOn(a, ab, k);
      } else if k == d2 {
        assert AgreeOn(b, ba, k);
      } else {
        assert AgreeOn(ds, a, k) && AgreeOn(a, ab, k);
        assert AgreeOn(ds, b, k) && AgreeOn(b, ba, k);
      }
    }
    AgreeEverywhere(ab, ba);
  }

  // ---------------------------------------------------------------------------
  // The invariant is kept

  lemma BasicStepPreservesWellFormed(ds: Directives, mode: int, d: Directive, v: string)
    requires WellFormed(ds) && !AcceptsNull(d)
    ensures WellFormed(BasicStep(ds, mode, d, v).directives)
  {
    if !IsSourceListItem(v) || AllowedItem(d, v) {
      StorePreservesWellFormed(ds, d, v);
    }
  }

  /** Storing an allowed value under a directive other than the two special ones. */
  lemma StorePreservesWellFormed(ds: Directives, d: Directive, v: string)
    requires WellFormed(ds) && !AcceptsNull(d)
    requires IsSourceListItem(v) ==> AllowedItem(d, v)
    ensures WellFormed(StoreValue(ds, d, v))
  {
    var r := StoreValue(ds, d, v);
    forall x | x in r ensures NoDup(r[x]) {
      if x != d {
        assert r[x] == ds[x];
      }
    }
    assert Sandbox in r ==> r[Sandbox] == ds[Sandbox];
    assert UpgradeInsecureRequests in r ==> r[UpgradeInsecureRequests] == ds[UpgradeInsecureRequests];
    forall x, w | x in r && x != Sandbox && w in r[x] && IsSourceListItem(w) ensures AllowedItem(x, w) {
      if x != d {
        assert r[x] == ds[x];
      } else if w != v {
        assert w in Lookup(ds, d);
      }
    }
  }

  lemma SandboxStepPreservesWellFormed(ds: Directives, v: Option<string>)
    requires WellFormed(ds)
    ensures WellFormed(SandboxStep(ds, v).directives)
  {
  }

  /** Every call, successful or not, leaves well-formed directives behind. */
  lemma AddPreservesWellFormed(ds: Directives, mode: int, name: string, value: Option<string>)
    requires WellFormed(ds) && NullPermitted(name, value)
    ensures WellFormed(AddStep(ds, mode, name, value).directives)
  {
    match DirectiveNamed(NormaliseDirective(name))
    case None =>
    case Some(d) =>
      ApplyPreservesWellFormed(ds, mode, d, value);
  }

  lemma ApplyPreservesWellFormed(ds: Directives, mode: int, d: Directive, value: Option<string>)
    requires WellFormed(ds) && (value.Some? || AcceptsNull(d))
    ensures WellFormed(Apply(ds, mode, d, value).directives)
  {
    if d == Sandbox {
      SandboxStepPreservesWellFormed(ds, value);
    } else if d != UpgradeInsecureRequests {
      BasicStepPreservesWellFormed(ds, mode, d, value.value);
    }
  }

  // ---------------------------------------------------------------------------
  // The same, for calls by name

  /** Adding the same value twice is the same as adding it once, down to the outcome. */
  lemma AddIdempotent(ds: Directives, mode: int, name: string, value: Option<string>)
    requires NullPermitted(name, value)
    ensures var once := AddStep(ds, mode, name, value);
      AddStep(once.directives, mode, name, value) == once
  {
    match DirectiveNamed(NormaliseDirective(name))
    case None =>
    case Some(d) => ApplyIdempotent(ds, mode, d, value);
  }

  /** Calls whose names normalise to different directives commute. */
  lemma AddCommutes(ds: Directives, mode: int, n1: string, v1: Option<string>, n2: string, v2: Option<string>)
    requires NullPermitted(n1, v1) && NullPermitted(n2, v2)
    requires NormaliseDirective(n1) != NormaliseDirective(n2)
    ensures var a := AddStep(ds, mode, n1, v1); var b := AddStep(ds, mode, n2, v2);
      && AddStep(a.directives, mode, n2, v2).directives == AddStep(b.directives, mode, n1, v1).directives
      && AddStep(a.directives, mode, n2, v2).outcome == b.outcome
      && AddStep(b.directives, mode, n1, v1).outcome == a.outcome
  {
    var o1, o2 := DirectiveNamed(NormaliseDirective(n1)), DirectiveNamed(NormaliseDirective(n2));
    if o1.Some? && o2.Some? {
      DirectiveNamedExactly(NormaliseDirective(n1));
      DirectiveNamedExactly(NormaliseDirective(n2));
      assert Name(o1.value) != Name(o2.value);
      ApplyCommutes(ds, mode, o1.value, v1, o2.value, v2);
    }
  }

  // ---------------------------------------------------------------------------
  // What __toString renders

  /** Rendering walks `dirs` one directive at a time. */
  lemma SegmentsAt(ds: Directives, dirs: seq<Directive>, i: int)
    requires 0 <= i < |dirs|
    ensures Segments(ds, dirs[i..]) ==
      (if dirs[i] in ds then Segment(dirs[i], ds[dirs[i]]) else "") + Segments(ds, dirs[i + 1..])
  {
    assert dirs[i..][1..] == dirs[i + 1..];
  }

  /** One iteration of the rendering loop on a present directive: its segment moves from
      the part still to render to the part already rendered. */
  lemma SegmentsPresent(ds: Directives, dirs: seq<Directive>, i: int, done: string)
    requires 0 <= i < |dirs| && dirs[i] in ds
    requires done + Segments(ds, dirs[i..]) == Segments(ds, dirs)
    ensures (done + Segment(dirs[i], ds[dirs[i]])) + Segments(ds, dirs[i + 1..]) == Segments(ds, dirs)
  {
    SegmentsAt(ds, dirs, i);
    Regroup(done, Segment(dirs[i], ds[dirs[i]]), Segments(ds, dirs[i + 1..]), Segments(ds, dirs));
  }

  /** One iteration of the rendering loop on an absent directive: nothing is rendered. */
  lemma SegmentsAbsent(ds: Directives, dirs: seq<Directive>, i: int, done: string)
    requires 0 <= i < |dirs| && dirs[i] !in ds
    requires done + Segments(ds, dirs[i..]) == Segments(ds, dirs)
    ensures done + Segments(ds, dirs[i + 1..]) == Segments(ds, dirs)
  {
    SegmentsAt(ds, dirs, i);
  }

  lemma Regroup(done: string, seg: string, rest: string, whole: string)
    requires done + (seg + rest) == whole
    ensures (done + seg) + rest == whole
  {
    assert (done + seg) + rest == done + (seg + rest);
  }

  /** The full header is the header name (report-only or not) followed by exactly the
      value-only rendering; the report-only flag matters only in full-header mode. */
  lemma RenderHeader(ds: Directives, reportOnly: bool, outputMode: int)
    ensures Render(ds, reportOnly, OutputFullHeader) ==
      (if reportOnly then ReportOnlyHeaderName else HeaderName) + Render(ds, reportOnly, OutputValueOnly)
    ensures outputMode != OutputFullHeader ==>
      Render(ds, reportOnly, outputMode) == Render(ds, !reportOnly, outputMode)
  {
  }

  /** In value-only mode the rendering has no white space at either end. */
  lemma RenderTrimmed(ds: Directives, reportOnly: bool, outputMode: int)
    requires outputMode != OutputFullHeader
    ensures var r := Render(ds, reportOnly, outputMode);
      r == [] || (!IsTrimSpace(r[0]) && !IsTrimSpace(r[|r| - 1]))
  {
    var body := Trim(Segments(ds, ValidDirectives));
    assert Render(ds, reportOnly, outputMode) == body;
  }

  /** Nothing is rendered exactly when none of the walked directives is present. */
  lemma {:induction false} SegmentsEmpty(ds: Directives, dirs: seq<Directive>)
    ensures Segments(ds, dirs) == [] <==> forall k :: 0 <= k < |dirs| ==> dirs[k] !in ds
  {
    if dirs != [] {
      SegmentsEmpty(ds, dirs[1..]);
      assert forall k :: 1 <= k < |dirs| ==> dirs[k] == dirs[1..][k - 1];
    }
  }

  /** A policy without directives renders as nothing in value-only mode and as the
      bare header name otherwise. */
  lemma RenderEmpty(reportOnly: bool)
    ensures Render(map[], reportOnly, OutputValueOnly) == []
    ensures Render(map[], reportOnly, OutputFullHeader) == if reportOnly then ReportOnlyHeaderName else HeaderName
  {
    SegmentsEmpty(map[], ValidDirectives);
  }

  /** With one directive present, only its segment is rendered. */
  lemma {:induction false} SegmentsOfOne(d: Directive, vs: seq<string>, dirs: seq<Directive>)
    requires NoDup(dirs)
    ensures Segments(map[d := vs], dirs) == if d in dirs then Segment(d, vs) else ""
  {
    if dirs != [] {
      assert NoDup(dirs[1..]);
      SegmentsOfOne(d, vs, dirs[1..]);
      assert d in dirs <==> d == dirs[0] || d in dirs[1..];
      assert d == dirs[0] ==> d !in dirs[1..];
    }
  }

  /** The line of a directive named `n`: the name, then its values separated by single spaces. */
  function Line(n: string, vs: seq<string>): string {
    n + (if vs == [] then "" else " " + Join(' ', vs))
  }

  /** Values that `trim()` cannot shorten at the end of a segment. */
  predicate EndsSolid(vs: seq<string>) {
    forall k :: 0 <= k < |vs| ==> vs[k] != [] && !IsTrimSpace(vs[k][|vs[k]| - 1])
  }

  /** A segment without its trailing space is the directive line and ";". */
  lemma TrimSegment(d: Directive, vs: seq<string>)
    requires EndsSolid(vs)
    ensures Trim(Segment(d, vs)) == Line(Name(d), vs) + ";"
  {
    NameShape(d);
    TrimNamedSegment(Name(d), vs);
  }

  /** `TrimSegment` for any name without white space at its ends. */
  lemma TrimNamedSegment(n: string, vs: seq<string>)
    requires n != [] && !IsTrimSpace(n[0]) && !IsTrimSpace(n[|n| - 1])
    requires EndsSolid(vs)
    ensures Trim(Trim(n + " " + Join(' ', vs)) + "; ") == Line(n, vs) + ";"
  {
    TrimLine(n, vs);
    var line := Trim(n + " " + Join(' ', vs));
    assert line != [];
    TrimTerminated(line);
  }

  /** `trim($directive . ' ' . implode(' ', $values))` for any name without white space
      at its ends: the trailing space of a directive without values goes, nothing else. */
  lemma TrimLine(n: string, vs: seq<string>)
    requires n != [] && !IsTrimSpace(n[0]) && !IsTrimSpace(n[|n| - 1])
    requires EndsSolid(vs)
    ensures Trim(n + " " + Join(' ', vs)) == Line(n, vs)
  {
    if vs == [] {
      TrimNameSpace(n);
      assert n + " " + Join(' ', vs) == n + " ";
    } else {
      JoinLast(' ', vs);
      TrimNoop(n + " " + Join(' ', vs));
    }
  }

  /** A bare name followed by one space trims to the name. */
  lemma TrimNameSpace(n: string)
    requires n != [] && !IsTrimSpace(n[0]) && !IsTrimSpace(n[|n| - 1])
    ensures Trim(n + " ") == n
  {
    assert TrimRight(n + " ") == n by {
      assert (n + " ")[..|n|] == n;
    }
    TrimLeftNoop(n);
  }

  /** The separator "; " after a trimmed line loses its space to `trim()`. */
  lemma TrimTerminated(line: string)
    requires line != [] && !IsTrimSpace(line[0]) && !IsTrimSpace(line[|line| - 1])
    ensures Trim(line + "; ") == line + ";"
  {
    var seg := line + "; ";
    assert TrimRight(seg) == line + ";" by {
      assert seg[..|seg| - 1] == line + ";";
    }
    TrimLeftNoop(line + ";");
  }

  /** A directive rendered on its own is its line and ";" -- `sandbox;` for an empty set. */
  lemma RenderSingleDirective(d: Directive, vs: seq<string>, reportOnly: bool)
    requires EndsSolid(vs)
    ensures Render(map[d := vs], reportOnly, OutputValueOnly) == Line(Name(d), vs) + ";"
  {
    Registered(d);
    SegmentsOfOne(d, vs, ValidDirectives);
    TrimSegment(d, vs);
    TrimIdempotent(Segment(d, vs));
  }

  // ---------------------------------------------------------------------------
  // Expected outputs from the builder's own test suite

  /** In strict mode a value that is not quoted, or that the allowlist accepts, is
      stored under its basic directive and nothing is thrown. */
  lemma StrictStore(ds: Directives, d: Directive, v: string)
    requires WellFormed(ds) && !AcceptsNull(d)
    requires !IsSourceListItem(v) || AllowedItem(d, v)
    ensures var r := AddStep(ds, ModeStrict, Name(d), Some(v));
      r.outcome == Pass && d in r.directives && v in r.directives[d]
  {
    AddByName(ds, ModeStrict, d, Some(v));
    if IsSourceListItem(v) {
      ApplyQuotedValue(ds, ModeStrict, d, v);
      ApplyFailsExactly(ds, ModeStrict, d, Some(v));
    } else {
      ApplyUnquotedValue(ds, ModeStrict, d, v);
    }
  }

  /** The quoted values the allowlist tests add are already in lower case. */
  lemma SampleKeywordsLower()
    ensures Lower("'self'") == "'self'" && Lower("'unsafe-eval'") == "'unsafe-eval'"
  {
    LowerNoop("'self'");
    LowerNoop("'unsafe-eval'");
  }

  /** The nonce of the allowlist tests is well formed. */
  lemma SampleNonce()
    ensures Matches(SourceNonce, Lower("'nonce-ThisIsANonce123=='"))
  {
    var b := "ThisIsANonce123==";
    assert b[|b| - 2..] == "==" && AllBase64Chars(b[..|b| - 2]);
    NonceAnyCase(b);
    assert "'nonce-" + b + "'" == "'nonce-ThisIsANonce123=='";
  }

  /** `base-uri`, `child-src` and `form-action` take `'self'`, `'unsafe-eval'` and a nonce. */
  lemma SampleScriptFamilyItems(d: Directive, v: string)
    requires d == BaseUri || d == ChildSrc || d == FormAction
    requires v == "'self'" || v == "'unsafe-eval'" || v == "'nonce-ThisIsANonce123=='"
    ensures AllowedItem(d, v)
  {
    assert FamilyOf(d) == ScriptFamily;
    SampleKeywordsLower();
    if v == "'self'" {
      NoneAndSelfBaseline(d, v);
    } else if v == "'unsafe-eval'" {
      UnsafeEvalAndHashesFamilies(d, v);
    } else {
      SampleNonce();
      NonceFamilies(d, v);
    }
  }

  /** The allowlist tests of `base-uri`, `child-src` and `form-action`: each value is
      stored in strict mode, whatever the directives held before. */
  lemma SampleScriptFamilyStored(ds: Directives, d: Directive, v: string)
    requires WellFormed(ds)
    requires d == BaseUri || d == ChildSrc || d == FormAction
    requires v in ["'self'", "'unsafe-eval'", "'nonce-ThisIsANonce123=='", "http:", "https://www.tom.be"]
    ensures var r := AddStep(ds, ModeStrict, Name(d), Some(v));
      r.outcome == Pass && d in r.directives && v in r.directives[d]
  {
    if v == "http:" || v == "https://www.tom.be" {
      assert !IsSourceListItem(v);
    } else {
      SampleScriptFamilyItems(d, v);
    }
    StrictStore(ds, d, v);
  }

  /** The allowlist test of `frame-ancestors`: `'self'` and two hosts are stored in strict mode. */
  lemma SampleFrameAncestorsStored(ds: Directives, v: string)
    requires WellFormed(ds)
    requires v in ["'self'", "http:", "https://www.tom.be"]
    ensures var r := AddStep(ds, ModeStrict, Name(FrameAncestors), Some(v));
      r.outcome == Pass && FrameAncestors in r.directives && v in r.directives[FrameAncestors]
  {
    if v == "'self'" {
      SampleKeywordsLower();
      NoneAndSelfBaseline(FrameAncestors, v);
    } else {
      assert !IsSourceListItem(v);
    }
    StrictStore(ds, FrameAncestors, v);
  }

  /** The line of the rendering tests' first policy. */
  lemma SampleLine()
    ensures Line(Name(DefaultSrc), ["'self'"]) + ";" == "default-src 'self';"
  {
    assert Join(' ', ["'self'"]) == "'self'";
  }

  /** The first expectation of the value-only rendering test. */
  lemma SampleDefaultSrc(ds: Directives, reportOnly: bool)
    requires ds == map[DefaultSrc := ["'self'"]]
    ensures Render(ds, reportOnly, OutputValueOnly) == "default-src 'self';"
  {
    RenderSingleDirective(DefaultSrc, ["'self'"], reportOnly);
    SampleLine();
  }

  /** Behind either header name stands the value-only rendering. */
  lemma HeaderBeforeBody(ds: Directives, body: string)
    requires Render(ds, false, OutputValueOnly) == body
    ensures Render(ds, false, OutputFullHeader) == HeaderName + body
    ensures Render(ds, true, OutputFullHeader) == ReportOnlyHeaderName + body
  {
    RenderHeader(ds, false, OutputFullHeader);
    RenderHeader(ds, true, OutputValueOnly);
  }

  /** The two header lines the full-header rendering test expects. */
  lemma SampleHeaderLines()
    ensures HeaderName + "default-src 'self';" == "Content-Security-Policy: default-src 'self';"
    ensures ReportOnlyHeaderName + "default-src 'self';" == "Content-Security-Policy-Report-Only: default-src 'self';"
  {
  }

  /** The expectations of the full-header rendering test, without and with report-only. */
  lemma SampleDefaultSrcHeader(ds: Directives)
    requires ds == map[DefaultSrc := ["'self'"]]
    ensures Render(ds, false, OutputFullHeader) == "Content-Security-Policy: default-src 'self';"
    ensures Render(ds, true, OutputFullHeader) == "Content-Security-Policy-Report-Only: default-src 'self';"
  {
    SampleDefaultSrc(ds, false);
    HeaderBeforeBody(ds, "default-src 'self';");
    SampleHeaderLines();
  }
}
