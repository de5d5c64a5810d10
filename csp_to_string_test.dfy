/** The expectations of the builder's rendering test, `testToCspString`: a strict
    policy in value-only mode, built call by call, and its rendering after each call.
    The directives come out in registry order (`report-to` before `sandbox` before
    `script-src`), whatever order they were added in. */
module CspToStringTest {
  import TestLiterals
  import opened Wrappers
  import opened PhpStrings
  import opened PhpArrays
  import opened CspGrammar
  import opened Csp
  import opened CspRoundTrip

  // ---------------------------------------------------------------------------
  // The entries of a rendering, piece by piece

  /** Directives that are all absent have no entries. */
  lemma {:induction false} EntriesNone(ds: Directives, dirs: seq<Directive>)
    decreases dirs
    requires forall k :: 0 <= k < |dirs| ==> dirs[k] !in ds
    ensures Entries(ds, dirs) == []
  {
    if dirs != [] {
      EntriesNone(ds, dirs[1..]);
    }
  }

  /** Absent directives at the front of the list add no entries. */
  lemma {:induction false} EntriesSkip(ds: Directives, dirs: seq<Directive>, i: nat)
    decreases i
    requires i <= |dirs| && forall k :: 0 <= k < i ==> dirs[k] !in ds
    ensures Entries(ds, dirs) == Entries(ds, dirs[i..])
  {
    if i > 0 {
      EntriesSkip(ds, dirs[1..], i - 1);
      assert dirs[1..][i - 1..] == dirs[i..];
    }
  }

  /** The entry of `d`, or none when `d` is absent. */
  function Opt(ds: Directives, d: Directive): seq<Entry> {
    if d in ds then [(Name(d), ds[d])] else []
  }

  /** A directive at the front of the list gives its entry, if it has one. */
  lemma EntriesHead(ds: Directives, dirs: seq<Directive>)
    requires dirs != []
    ensures Entries(ds, dirs) == Opt(ds, dirs[0]) + Entries(ds, dirs[1..])
  {
  }

  /** A stretch of the registry `vd` without a present directive adds no entries.
      (The registry is passed as `vd` so that the verifier does not unfold `Entries`
      over the literal list.) */
  lemma RegistrySkip(ds: Directives, vd: seq<Directive>, lo: nat, hi: nat)
    requires vd == ValidDirectives && lo <= hi <= |vd|
    requires forall d :: d in ds ==> !(lo <= Position(d) < hi)
    ensures Entries(ds, vd[lo..]) == Entries(ds, vd[hi..])
  {
    var dirs := vd[lo..];
    forall k | 0 <= k < hi - lo ensures dirs[k] !in ds {
      var d := dirs[k];
      assert d == vd[lo + k];
      RegistryAtPosition(lo + k);
      assert Position(d) == lo + k;
    }
    EntriesSkip(ds, dirs, hi - lo);
    assert dirs[hi - lo..] == vd[hi..];
  }

  /** The registry from place `i` on: the entry of its directive there, then the rest. */
  lemma RegistryHead(ds: Directives, vd: seq<Directive>, i: nat)
    requires vd == ValidDirectives && i < |vd|
    ensures Entries(ds, vd[i..]) == Opt(ds, vd[i]) + Entries(ds, vd[i + 1..])
  {
    EntriesHead(ds, vd[i..]);
    assert vd[i..][1..] == vd[i + 1..];
  }

  /** The directives of `testToCspString`. */
  predicate TestKeys(ds: Directives) {
    forall d :: d in ds ==> d == DefaultSrc || d == ReportTo || d == Sandbox || d == ScriptSrc
  }

  /** With only the directives of the test present, the rendering loop meets them in
      the order `default-src`, `report-to`, `sandbox`, `script-src`. */
  /** A stretch of the registry holding none of the test's directives adds no entries. */
  lemma TestSkip(ds: Directives, vd: seq<Directive>, lo: nat, hi: nat)
    requires vd == ValidDirectives && TestKeys(ds) && lo <= hi <= 26
    requires !(lo <= 3 < hi) && !(lo <= 15 < hi) && !(lo <= 17 < hi) && !(lo <= 18 < hi)
    ensures Entries(ds, vd[lo..]) == Entries(ds, vd[hi..])
  {
    RegistrySkip(ds, vd, lo, hi);
  }

  /** The registry places of the test's directives. */
  lemma TestPlaces(vd: seq<Directive>)
    requires vd == ValidDirectives
    ensures |vd| == 26
    ensures vd[3] == DefaultSrc && vd[15] == ReportTo && vd[17] == Sandbox && vd[18] == ScriptSrc
  {
  }

  lemma TestEntries(ds: Directives, vd: seq<Directive>)
    requires vd == ValidDirectives && TestKeys(ds)
    ensures Entries(ds, vd) ==
      Opt(ds, DefaultSrc) + (Opt(ds, ReportTo) + (Opt(ds, Sandbox) + Opt(ds, ScriptSrc)))
  {
    TestPlaces(vd);
    TestEntriesFrom4(ds, vd);
    RegistryHead(ds, vd, 3);
    TestSkip(ds, vd, 0, 3);
    assert vd[0..] == vd;
  }

  lemma TestEntriesFrom4(ds: Directives, vd: seq<Directive>)
    requires vd == ValidDirectives && TestKeys(ds)
    ensures Entries(ds, vd[4..]) == Opt(ds, ReportTo) + (Opt(ds, Sandbox) + Opt(ds, ScriptSrc))
  {
    TestPlaces(vd);
    TestEntriesFrom17(ds, vd);
    TestSkip(ds, vd, 16, 17);
    RegistryHead(ds, vd, 15);
    TestSkip(ds, vd, 4, 15);
  }

  lemma TestEntriesFrom17(ds: Directives, vd: seq<Directive>)
    requires vd == ValidDirectives && TestKeys(ds)
    ensures Entries(ds, vd[17..]) == Opt(ds, Sandbox) + Opt(ds, ScriptSrc)
  {
    TestPlaces(vd);
    TestSkip(ds, vd, 19, 26);
    assert vd[26..] == [];
    RegistryHead(ds, vd, 18);
    RegistryHead(ds, vd, 17);
  }

  /** The body of two, three and four entries, spelled out. */
  lemma BodyTwo(e1: Entry, e2: Entry)
    ensures Body([e1, e2]) == Line(e1.0, e1.1) + "; " + Line(e2.0, e2.1) + ";"
  {
    assert [e1, e2][1..] == [e2];
  }

  lemma BodyThree(e1: Entry, e2: Entry, e3: Entry)
    ensures Body([e1, e2, e3]) == Line(e1.0, e1.1) + "; " + Line(e2.0, e2.1) + "; " + Line(e3.0, e3.1) + ";"
  {
    assert [e1, e2, e3][1..] == [e2, e3];
    BodyTwo(e2, e3);
  }

  lemma BodyFour(e1: Entry, e2: Entry, e3: Entry, e4: Entry)
    ensures Body([e1, e2, e3, e4]) ==
      Line(e1.0, e1.1) + "; " + Line(e2.0, e2.1) + "; " + Line(e3.0, e3.1) + "; " + Line(e4.0, e4.1) + ";"
  {
    assert [e1, e2, e3, e4][1..] == [e2, e3, e4];
    BodyThree(e2, e3, e4);
  }

  // ---------------------------------------------------------------------------
  // The lines of the test's directives

  lemma TestNames()
    ensures Name(DefaultSrc) == "default-src" && Name(ReportTo) == "report-to"
    ensures Name(Sandbox) == "sandbox" && Name(ScriptSrc) == "script-src"
  {
  }

  lemma LineTwo(n: string, a: string, b: string)
    ensures Line(n, [a, b]) == n + " " + a + " " + b
  {
    assert [a, b][1..] == [b];
    assert Join(' ', [a, b]) == a + [' '] + b;
  }

  lemma LineDefaultSrc()
    ensures Line("default-src", ["'self'", "https://www.tom.be"]) == "default-src 'self' https://www.tom.be"
  {
    LineTwo("default-src", "'self'", "https://www.tom.be");
    TestLiterals.DefaultSrcLine();
  }

  lemma LineNone(n: string)
    ensures Line(n, []) == n
  {
  }

  lemma LineOne(n: string, v: string)
    ensures Line(n, [v]) == n + " " + v
  {
  }

  // ---------------------------------------------------------------------------
  // The states of the test and their renderings

  const State1: Directives := map[DefaultSrc := ["'self'"]]
  const State2: Directives := map[DefaultSrc := ["'self'", "https://www.tom.be"]]
  const State3: Directives := State2[ScriptSrc := ["'unsafe-inline'"]]
  const State4: Directives := State3[Sandbox := []]
  const State5: Directives := State3[Sandbox := ["allow-popups"]]
  const State6: Directives := State5[ReportTo := ["my-endpoint"]]

  /** With only the test's directives present, `default-src` among them, the value-only
      rendering is the body of their entries in registry order. */
  lemma TestRender(ds: Directives, reportOnly: bool)
    requires TestKeys(ds) && DefaultSrc in ds
    requires forall d :: d in ds ==> EndsSolid(ds[d])
    ensures Render(ds, reportOnly, OutputValueOnly) ==
      Body(Opt(ds, DefaultSrc) + (Opt(ds, ReportTo) + (Opt(ds, Sandbox) + Opt(ds, ScriptSrc))))
  {
    RenderedBody(ds, reportOnly);
    TestEntries(ds, ValidDirectives);
  }

  lemma State2Shape()
    ensures TestKeys(State2) && DefaultSrc in State2
    ensures forall d :: d in State2 ==> EndsSolid(State2[d])
  {
    SolidValues();
    assert State2[DefaultSrc] == ["'self'", "https://www.tom.be"];
  }

  lemma State2Entries()
    ensures Opt(State2, DefaultSrc) + (Opt(State2, ReportTo) + (Opt(State2, Sandbox) + Opt(State2, ScriptSrc)))
      == [("default-src", ["'self'", "https://www.tom.be"])]
  {
    TestNames();
  }

  /** The second expectation: both `default-src` values, in the order they were added. */
  lemma RenderState2(reportOnly: bool)
    ensures Render(State2, reportOnly, OutputValueOnly) == "default-src 'self' https://www.tom.be" + ";"
  {
    State2Shape();
    State2Entries();
    TestRender(State2, reportOnly);
    LineDefaultSrc();
  }

  lemma State3Shape()
    ensures TestKeys(State3) && DefaultSrc in State3
    ensures forall d :: d in State3 ==> EndsSolid(State3[d])
  {
    SolidValues();
    forall d | d in State3 ensures EndsSolid(State3[d]) {
      if d == ScriptSrc {
      } else {
        assert d == DefaultSrc;
      }
    }
  }

  lemma State3Entries()
    ensures Opt(State3, DefaultSrc) + (Opt(State3, ReportTo) + (Opt(State3, Sandbox) + Opt(State3, ScriptSrc)))
      == [("default-src", ["'self'", "https://www.tom.be"]), ("script-src", ["'unsafe-inline'"])]
  {
    TestNames();
  }

  /** The third expectation: `script-src`, added after `default-src`, comes after it. */
  lemma RenderState3(reportOnly: bool)
    ensures Render(State3, reportOnly, OutputValueOnly) ==
      "default-src 'self' https://www.tom.be" + "; " + "script-src 'unsafe-inline'" + ";"
  {
    State3Shape();
    State3Entries();
    TestRender(State3, reportOnly);
    BodyTwo(("default-src", ["'self'", "https://www.tom.be"]), ("script-src", ["'unsafe-inline'"]));
    LineDefaultSrc();
    LineOne("script-src", "'unsafe-inline'");
    TestLiterals.ScriptSrcLine();
  }

  lemma State4Shape()
    ensures TestKeys(State4) && DefaultSrc in State4
    ensures forall d :: d in State4 ==> EndsSolid(State4[d])
  {
    SolidValues();
    forall d | d in State4 ensures EndsSolid(State4[d]) {
      if d == Sandbox {
      } else if d == ScriptSrc {
      } else {
        assert d == DefaultSrc;
      }
    }
  }

  lemma State4Entries()
    ensures Opt(State4, DefaultSrc) + (Opt(State4, ReportTo) + (Opt(State4, Sandbox) + Opt(State4, ScriptSrc)))
      == [("default-src", ["'self'", "https://www.tom.be"]), ("sandbox", []), ("script-src", ["'unsafe-inline'"])]
  {
    TestNames();
  }

  /** The fourth expectation: `sandbox` without a value, between `default-src` and
      `script-src`, although it was added last. */
  lemma RenderState4(reportOnly: bool)
    ensures Render(State4, reportOnly, OutputValueOnly) ==
      "default-src 'self' https://www.tom.be" + "; " + "sandbox" + "; " + "script-src 'unsafe-inline'" + ";"
  {
    State4Shape();
    State4Entries();
    TestRender(State4, reportOnly);
    BodyThree(("default-src", ["'self'", "https://www.tom.be"]), ("sandbox", []), ("script-src", ["'unsafe-inline'"]));
    LineDefaultSrc();
    LineNone("sandbox");
    LineOne("script-src", "'unsafe-inline'");
    TestLiterals.ScriptSrcLine();
  }

  lemma State5Shape()
    ensures TestKeys(State5) && DefaultSrc in State5
    ensures forall d :: d in State5 ==> EndsSolid(State5[d])
  {
    SolidValues();
    forall d | d in State5 ensures EndsSolid(State5[d]) {
      if d == Sandbox {
      } else if d == ScriptSrc {
      } else {
        assert d == DefaultSrc;
      }
    }
  }

  lemma State5Entries()
    ensures Opt(State5, DefaultSrc) + (Opt(State5, ReportTo) + (Opt(State5, Sandbox) + Opt(State5, ScriptSrc)))
      == [("default-src", ["'self'", "https://www.tom.be"]), ("sandbox", ["allow-popups"]), ("script-src", ["'unsafe-inline'"])]
  {
    TestNames();
  }

  /** The fifth expectation: the sandbox option after the directive name. */
  lemma RenderState5(reportOnly: bool)
    ensures Render(State5, reportOnly, OutputValueOnly) ==
      "default-src 'self' https://www.tom.be" + "; " + "sandbox allow-popups" + "; " + "script-src 'unsafe-inline'" + ";"
  {
    State5Shape();
    State5Entries();
    TestRender(State5, reportOnly);
    BodyThree(("default-src", ["'self'", "https://www.tom.be"]), ("sandbox", ["allow-popups"]), ("script-src", ["'unsafe-inline'"]));
    LineDefaultSrc();
    LineOne("sandbox", "allow-popups");
    TestLiterals.SandboxLine();
    LineOne("script-src", "'unsafe-inline'");
    TestLiterals.ScriptSrcLine();
  }

  /** The test's values end in a character `trim()` keeps. */
  lemma SolidValues()
    ensures EndsSolid(["'self'", "https://www.tom.be"]) && EndsSolid(["'unsafe-inline'"])
    ensures EndsSolid([]) && EndsSolid(["allow-popups"]) && EndsSolid(["my-endpoint"])
  {
    assert EndsSolid(["'self'", "https://www.tom.be"]) by {
      var vs := ["'self'", "https://www.tom.be"];
      assert vs[0][|vs[0]| - 1] == '\'' && vs[1][|vs[1]| - 1] == 'e';
    }
  }

  lemma State6Shape()
    ensures TestKeys(State6) && DefaultSrc in State6
    ensures forall d :: d in State6 ==> EndsSolid(State6[d])
  {
    SolidValues();
    forall d | d in State6 ensures EndsSolid(State6[d]) {
      if d == ReportTo {
      } else if d == Sandbox {
      } else if d == ScriptSrc {
      } else {
        assert d == DefaultSrc;
      }
    }
  }

  lemma State6Entries()
    ensures Opt(State6, DefaultSrc) + (Opt(State6, ReportTo) + (Opt(State6, Sandbox) + Opt(State6, ScriptSrc)))
      == [("default-src", ["'self'", "https://www.tom.be"]), ("report-to", ["my-endpoint"]),
          ("sandbox", ["allow-popups"]), ("script-src", ["'unsafe-inline'"])]
  {
    TestNames();
  }

  /** The last expectation: `report-to`, added last, is rendered second. */
  lemma RenderState6(reportOnly: bool)
    ensures Render(State6, reportOnly, OutputValueOnly) ==
      "default-src 'self' https://www.tom.be" + "; " + "report-to my-endpoint" + "; "
      + "sandbox allow-popups" + "; " + "script-src 'unsafe-inline'" + ";"
  {
    State6Shape();
    State6Entries();
    TestRender(State6, reportOnly);
    BodyFour(("default-src", ["'self'", "https://www.tom.be"]), ("report-to", ["my-endpoint"]),
      ("sandbox", ["allow-popups"]), ("script-src", ["'unsafe-inline'"]));
    LineDefaultSrc();
    LineOne("report-to", "my-endpoint");
    TestLiterals.ReportToLine();
    LineOne("sandbox", "allow-popups");
    TestLiterals.SandboxLine();
    LineOne("script-src", "'unsafe-inline'");
    TestLiterals.ScriptSrcLine();
  }
  // ---------------------------------------------------------------------------
  // The calls of the test, one state to the next

  /** A basic directive named by its registered spelling stores a value that is not
      quoted, or that its allowlist accepts, and passes. */
  lemma AddStores(ds: Directives, name: string, d: Directive, v: string)
    requires name == Name(d) && !AcceptsNull(d)
    requires !IsSourceListItem(v) || AllowedItem(d, v)
    ensures AddStep(ds, ModeStrict, name, Some(v)) == Step(StoreValue(ds, d, v), Pass)
  {
    AddByName(ds, ModeStrict, d, Some(v));
  }

  /** `sandbox` named by its registered spelling with `null`: the sandbox is created
      if it is missing, and nothing else changes. */
  lemma AddSandboxNull(ds: Directives, name: string, d: Directive)
    requires d == Sandbox && name == Name(d)
    ensures NullPermitted(name, None)
    ensures AddStep(ds, ModeStrict, name, None) == Step(ds[d := Lookup(ds, d)], Pass)
  {
    AddByName(ds, ModeStrict, d, None);
    SandboxCreates(ds);
  }

  lemma SandboxCreates(ds: Directives)
    ensures SandboxStep(ds, None) == Step(ds[Sandbox := Lookup(ds, Sandbox)], Pass)
  {
    if Sandbox in ds {
      assert ds[Sandbox := ds[Sandbox]] == ds;
    }
  }

  /** `sandbox` named by its registered spelling with a sandbox option: the option is stored. */
  lemma AddSandboxOption(ds: Directives, name: string, d: Directive, v: string)
    requires d == Sandbox && name == Name(d) && v in SandboxOptions
    ensures AddStep(ds, ModeStrict, name, Some(v)) == Step(StoreValue(ds, d, v), Pass)
  {
    AddByName(ds, ModeStrict, d, Some(v));
    SandboxStores(ds, v);
  }

  lemma SandboxStores(ds: Directives, v: string)
    requires v in SandboxOptions
    ensures SandboxStep(ds, Some(v)) == Step(StoreValue(ds, Sandbox, v), Pass)
  {
    var created := if Sandbox in ds then ds else ds[Sandbox := []];
    assert Lookup(created, Sandbox) == Lookup(ds, Sandbox);
    assert StoreValue(created, Sandbox, v) == StoreValue(ds, Sandbox, v);
  }

  /** `addToDirective('default-src', "'self'")` on a fresh strict policy. (The calls
      take their arguments as parameters so that the verifier does not evaluate the
      handlers on the literals.) */
  lemma Call1(ds: Directives, name: string, v: string)
    requires ds == map[] && name == "default-src" && v == "'self'"
    ensures AddStep(ds, ModeStrict, name, Some(v)) == Step(State1, Pass)
  {
    TestNames();
    SampleKeywordsLower();
    NoneAndSelfBaseline(DefaultSrc, v);
    AddStores(ds, name, DefaultSrc, v);
    assert StoreValue(ds, DefaultSrc, v) == State1;
  }

  /** `addToDirective('default-src', "https://www.tom.be")`: a host goes after `'self'`. */
  lemma Call2(ds: Directives, name: string, v: string)
    requires ds == State1 && name == "default-src" && v == "https://www.tom.be"
    ensures AddStep(ds, ModeStrict, name, Some(v)) == Step(State2, Pass)
  {
    TestNames();
    AddStores(ds, name, DefaultSrc, v);
    Stored2(ds, v);
  }

  lemma Stored2(ds: Directives, v: string)
    requires ds == State1 && v == "https://www.tom.be"
    ensures StoreValue(ds, DefaultSrc, v) == State2
  {
    assert v != "'self'";
    assert Insert(["'self'"], v) == ["'self'", v];
  }

  /** `addToDirective('script-src', "'unsafe-inline'")`: allowed for the script family. */
  lemma Call3(ds: Directives, name: string, v: string)
    requires ds == State2 && name == "script-src" && v == "'unsafe-inline'"
    ensures AddStep(ds, ModeStrict, name, Some(v)) == Step(State3, Pass)
  {
    TestNames();
    LowerNoop(v);
    UnsafeInlineFamilies(ScriptSrc, v);
    AddStores(ds, name, ScriptSrc, v);
    assert StoreValue(ds, ScriptSrc, v) == State3;
  }

  /** `addToDirective('sandbox', null)`: an empty sandbox. */
  lemma Call4(ds: Directives, name: string)
    requires ds == State3 && name == "sandbox"
    ensures NullPermitted(name, None)
    ensures AddStep(ds, ModeStrict, name, None) == Step(State4, Pass)
  {
    TestNames();
    AddSandboxNull(ds, name, Sandbox);
    assert ds[Sandbox := Lookup(ds, Sandbox)] == State4;
  }

  /** `addToDirective('sandbox', 'allow-popups')`: a sandbox option. */
  lemma Call5(ds: Directives, name: string, v: string)
    requires ds == State4 && name == "sandbox" && v == "allow-popups"
    ensures AddStep(ds, ModeStrict, name, Some(v)) == Step(State5, Pass)
  {
    TestNames();
    assert v in SandboxOptions by {
      assert SandboxOptions[4] == "allow-popups";
    }
    AddSandboxOption(ds, name, Sandbox, v);
    Stored5(ds, v);
  }

  lemma Stored5(ds: Directives, v: string)
    requires ds == State4 && v == "allow-popups"
    ensures StoreValue(ds, Sandbox, v) == State5
  {
    assert Insert([], v) == [v];
  }

  /** `addToDirective('report-to', 'my-endpoint')`: an endpoint name, not quoted. */
  lemma Call6(ds: Directives, name: string, v: string)
    requires ds == State5 && name == "report-to" && v == "my-endpoint"
    ensures AddStep(ds, ModeStrict, name, Some(v)) == Step(State6, Pass)
  {
    TestNames();
    AddStores(ds, name, ReportTo, v);
    assert StoreValue(ds, ReportTo, v) == State6;
  }
}
