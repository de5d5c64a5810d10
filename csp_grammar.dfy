/** The static tables of the policy builder: the directive registry, the sandbox
    tokens, the quoted source-list patterns and the per-directive allowlist. */
module CspGrammar {
  import opened Wrappers
  import opened PhpStrings
  import opened PhpArrays

  /** The registered directives (`DIRECTIVE_*`). */
  datatype Directive =
    | BaseUri | ConnectSrc | ChildSrc | DefaultSrc | FontSrc | FormAction | FrameAncestors
    | FrameSrc | ImgSrc | ManifestSrc | MediaSrc | NavigateTo | ObjectSrc | PluginTypes
    | PrefetchSrc | ReportTo | ReportUri | Sandbox | ScriptSrc | ScriptSrcAttr | ScriptSrcElem
    | StyleSrc | StyleSrcAttr | StyleSrcElem | UpgradeInsecureRequests | WorkerSrc

  /** The exceptions of the library: `\InvalidArgumentException`,
      `CspInvalidDirectiveException` with the rejected name, and
      `CspInvalidSourceListItemException` with the rejected value and the directive
      whose name the message quotes. */
  datatype CspError =
    | InvalidArgument(message: string)
    | InvalidDirective(name: string)
    | InvalidSourceListItem(item: string, directive: Directive)

  /** The name of a directive, as it appears in a header. */
  function Name(d: Directive): string {
    match d
    case BaseUri => "base-uri"
    case ConnectSrc => "connect-src"
    case ChildSrc => "child-src"
    case DefaultSrc => "default-src"
    case FontSrc => "font-src"
    case FormAction => "form-action"
    case FrameAncestors => "frame-ancestors"
    case FrameSrc => "frame-src"
    case ImgSrc => "img-src"
    case ManifestSrc => "manifest-src"
    case MediaSrc => "media-src"
    case NavigateTo => "navigate-to"
    case ObjectSrc => "object-src"
    case PluginTypes => "plugin-types"
    case PrefetchSrc => "prefetch-src"
    case ReportTo => "report-to"
    case ReportUri => "report-uri"
    case Sandbox => "sandbox"
    case ScriptSrc => "script-src"
    case ScriptSrcAttr => "script-src-attr"
    case ScriptSrcElem => "script-src-elem"
    case StyleSrc => "style-src"
    case StyleSrcAttr => "style-src-attr"
    case StyleSrcElem => "style-src-elem"
    case UpgradeInsecureRequests => "upgrade-insecure-requests"
    case WorkerSrc => "worker-src"
  }

  /** `VALID_DIRECTIVES`: the registry, in the order serialisation follows. */
  const ValidDirectives: seq<Directive> := [
    BaseUri, ConnectSrc, ChildSrc, DefaultSrc, FontSrc, FormAction, FrameAncestors,
    FrameSrc, ImgSrc, ManifestSrc, MediaSrc, NavigateTo, ObjectSrc, PluginTypes,
    PrefetchSrc, ReportTo, ReportUri, Sandbox, ScriptSrc, ScriptSrcAttr, ScriptSrcElem,
    StyleSrc, StyleSrcAttr, StyleSrcElem, UpgradeInsecureRequests, WorkerSrc
  ]

  /** The first directive of `ds` named `s`. */
  function FindNamed(s: string, ds: seq<Directive>): (r: Option<Directive>)
    ensures r.Some? ==> r.value in ds && Name(r.value) == s
    ensures r.None? ==> forall k :: 0 <= k < |ds| ==> Name(ds[k]) != s
  {
    if ds == [] then None
    else if Name(ds[0]) == s then Some(ds[0])
    else
      var r := FindNamed(s, ds[1..]);
      assert forall k :: 1 <= k < |ds| ==> ds[k] == ds[1..][k - 1];
      r
  }

  /** `in_array($s, VALID_DIRECTIVES)`, answering with the directive found. */
  function DirectiveNamed(s: string): Option<Directive> {
    FindNamed(s, ValidDirectives)
  }

  /** `VALID_SANDBOX_OPTIONS`: the only values the `sandbox` directive accepts. */
  const SandboxOptions: seq<string> := [
    "allow-forms", "allow-modals", "allow-orientation-lock", "allow-pointer-lock",
    "allow-popups", "allow-popups-to-escape-sandbox", "allow-presentation",
    "allow-same-origin", "allow-scripts", "allow-top-navigation"
  ]

  /** The case groups of the allowlist switch. */
  datatype Family = ScriptFamily | WorkerFamily | StyleFamily | ReportFamily | BaselineFamily

  function FamilyOf(d: Directive): Family {
    match d
    case ScriptSrc | ScriptSrcAttr | ScriptSrcElem | BaseUri | ChildSrc | FormAction | NavigateTo => ScriptFamily
    case WorkerSrc | ManifestSrc | PrefetchSrc => WorkerFamily
    case StyleSrc | StyleSrcAttr | StyleSrcElem => StyleFamily
    case ReportUri | ReportTo => ReportFamily
    case _ => BaselineFamily
  }

  /** The label of the plugin case of the allowlist switch. It lacks the final "s"
      of `plugin-types`, so no registered directive ever reaches that case. */
  const PluginTypeLabel := "plugin-type"

  /** The quoted source-list patterns (`PAT_*`). */
  datatype Pattern =
    | SourceNone | SourceSelf | SourceUnsafeEval | SourceUnsafeInline | SourceSha
    | SourceNonce | SourceStrictDynamic | SourceUnsafeHashes

  /** `[A-Za-z0-9+/]` */
  predicate IsBase64Char(c: char) {
    'A' <= c <= 'Z' || 'a' <= c <= 'z' || '0' <= c <= '9' || c == '+' || c == '/'
  }

  predicate AllBase64Chars(s: string) {
    forall i :: 0 <= i < |s| ==> IsBase64Char(s[i])
  }

  /** `PAT_BASE64`, `[A-Za-z0-9+\/]+={0,2}`, matched in full. */
  predicate IsBase64(s: string) {
    || (|s| >= 1 && AllBase64Chars(s))
    || (|s| >= 2 && s[|s| - 1] == '=' && AllBase64Chars(s[..|s| - 1]))
    || (|s| >= 3 && s[|s| - 2..] == "==" && AllBase64Chars(s[..|s| - 2]))
  }

  /** Whether the lower-cased value `s` matches pattern `p` in full. Every pattern
      is closed under ASCII case, so matching `strtolower(v)` against the lower-case
      pattern is matching `v` under the `/i` flag. */
  predicate Matches(p: Pattern, s: string) {
    match p
    case SourceNone => s == "'none'"
    case SourceSelf => s == "'self'"
    case SourceUnsafeEval => s == "'unsafe-eval'"
    case SourceUnsafeInline => s == "'unsafe-inline'"
    case SourceStrictDynamic => s == "'strict-dynamic'"
    case SourceUnsafeHashes => s == "'unsafe-hashes'"
    case SourceNonce =>
      |s| >= 8 && s[..7] == "'nonce-" && s[|s| - 1] == '\'' && IsBase64(s[7..|s| - 1])
    case SourceSha =>
      && |s| >= 9 && s[..4] == "'sha" && s[4..7] in ["256", "384", "512"] && s[7] == '-'
      && s[|s| - 1] == '\'' && IsBase64(s[8..|s| - 1])
  }

  /** The alternation `^(p1|p2|...)$`; with no alternatives it matches only "". */
  predicate MatchesAny(patterns: seq<Pattern>, s: string) {
    if patterns == [] then s == ""
    else Matches(patterns[0], s) || (|patterns| > 1 && MatchesAny(patterns[1..], s))
  }

  /** The patterns a quoted value of directive `d` is matched against: `'none'` and
      `'self'`, extended or replaced according to the family of `d`. */
  function PatternsFor(d: Directive): (r: seq<Pattern>)
    ensures FamilyOf(d) != ReportFamily ==> |r| >= 2 && r[..2] == [SourceNone, SourceSelf]
    ensures FamilyOf(d) == ReportFamily ==> r == []
  {
    FamilyPatterns(FamilyOf(d))
  }

  /** The patterns of one family. */
  function FamilyPatterns(f: Family): (r: seq<Pattern>)
    ensures f != ReportFamily ==> |r| >= 2 && r[..2] == [SourceNone, SourceSelf]
    ensures f == ReportFamily ==> r == []
  {
    var baseline := [SourceNone, SourceSelf];
    match f
    case ScriptFamily =>
      baseline + [SourceUnsafeEval, SourceUnsafeInline, SourceSha, SourceNonce, SourceStrictDynamic, SourceUnsafeHashes]
    case WorkerFamily =>
      baseline + [SourceUnsafeEval, SourceUnsafeInline, SourceSha, SourceNonce, SourceUnsafeHashes]
    case StyleFamily =>
      baseline + [SourceUnsafeInline, SourceSha, SourceNonce]
    case ReportFamily => []
    case BaselineFamily => baseline
  }

  /** `preg_match("/^(...)$/i", v)` over the patterns of directive `d`. */
  predicate AllowedItem(d: Directive, v: string) {
    MatchesAny(PatternsFor(d), Lower(v))
  }

  // ---------------------------------------------------------------------------
  // The registry

  /** The place of a directive in the registry. */
  function Position(d: Directive): nat {
    match d
    case BaseUri => 0 case ConnectSrc => 1 case ChildSrc => 2 case DefaultSrc => 3
    case FontSrc => 4 case FormAction => 5 case FrameAncestors => 6 case FrameSrc => 7
    case ImgSrc => 8 case ManifestSrc => 9 case MediaSrc => 10 case NavigateTo => 11
    case ObjectSrc => 12 case PluginTypes => 13 case PrefetchSrc => 14 case ReportTo => 15
    case ReportUri => 16 case Sandbox => 17 case ScriptSrc => 18 case ScriptSrcAttr => 19
    case ScriptSrcElem => 20 case StyleSrc => 21 case StyleSrcAttr => 22 case StyleSrcElem => 23
    case UpgradeInsecureRequests => 24 case WorkerSrc => 25
  }

  lemma PositionInRegistry(d: Directive)
    ensures Position(d) < |ValidDirectives| && ValidDirectives[Position(d)] == d
  {
  }

  lemma RegistryAtPosition(i: int)
    requires 0 <= i < |ValidDirectives|
    ensures Position(ValidDirectives[i]) == i
  {
  }

  /** Every directive is registered, exactly once. */
  lemma Registered(d: Directive)
    ensures d in ValidDirectives
    ensures NoDup(ValidDirectives)
  {
    PositionInRegistry(d);
    forall i, j | 0 <= i < j < |ValidDirectives|
      ensures ValidDirectives[i] != ValidDirectives[j]
    {
      RegistryAtPosition(i);
      RegistryAtPosition(j);
    }
  }

  /** A left inverse of `Name`, read off the length and one or two letters. */
  function DecodeName(s: string): Option<Directive> {
    match |s|
    case 7 => if s[0] == 'i' then Some(ImgSrc) else Some(Sandbox)
    case 8 => if s[0] == 'b' then Some(BaseUri) else Some(FontSrc)
    case 9 =>
      if s[0] == 'c' then Some(ChildSrc) else if s[0] == 'f' then Some(FrameSrc)
      else if s[0] == 'm' then Some(MediaSrc) else if s[0] == 'r' then Some(ReportTo)
      else Some(StyleSrc)
    case 10 =>
      if s[0] == 'o' then Some(ObjectSrc) else if s[0] == 'r' then Some(ReportUri)
      else if s[0] == 's' then Some(ScriptSrc) else Some(WorkerSrc)
    case 11 =>
      if s[0] == 'c' then Some(ConnectSrc) else if s[0] == 'd' then Some(DefaultSrc)
      else if s[0] == 'f' then Some(FormAction) else Some(NavigateTo)
    case 12 => if s[0] == 'm' then Some(ManifestSrc) else if s[1] == 'l' then Some(PluginTypes) else Some(PrefetchSrc)
    case 14 => if s[10] == 'a' then Some(StyleSrcAttr) else Some(StyleSrcElem)
    case 15 => if s[0] == 'f' then Some(FrameAncestors) else if s[11] == 'a' then Some(ScriptSrcAttr) else Some(ScriptSrcElem)
    case 25 => Some(UpgradeInsecureRequests)
    case _ => None
  }

  lemma DecodeNameInverse(d: Directive)
    ensures DecodeName(Name(d)) == Some(d)
  {
  }

  /** Different directives have different names. */
  lemma NameInjective(a: Directive, b: Directive)
    requires Name(a) == Name(b)
    ensures a == b
  {
    DecodeNameInverse(a);
    DecodeNameInverse(b);
  }

  /** The lookup succeeds exactly on the registered names, and answers with the
      directive of that name. */
  lemma DirectiveNamedExactly(s: string)
    ensures forall d :: Name(d) == s ==> DirectiveNamed(s) == Some(d)
    ensures DirectiveNamed(s).None? <==> forall d :: Name(d) != s
  {
    forall d | Name(d) == s
      ensures DirectiveNamed(s) == Some(d)
    {
      Registered(d);
      if DirectiveNamed(s).Some? {
        NameInjective(d, DirectiveNamed(s).value);
      }
    }
  }

  /** Looking a directive's own name up finds that directive. */
  lemma NamedRoundTrip(d: Directive)
    ensures DirectiveNamed(Name(d)) == Some(d)
  {
    DirectiveNamedExactly(Name(d));
  }

  /** Directive names are lower case, non-empty, and start and end with a letter. */
  lemma NameShape(d: Directive)
    ensures var n := Name(d); |n| > 0 && 'a' <= n[0] <= 'z' && 'a' <= n[|n| - 1] <= 'z'
    ensures IsLowerWord(Name(d))
  {
    if d == BaseUri || d == ConnectSrc || d == ChildSrc || d == DefaultSrc || d == FontSrc || d == FormAction || d == FrameAncestors {
      LowerWordNames1(d);
    } else if d == FrameSrc || d == ImgSrc || d == ManifestSrc || d == MediaSrc || d == NavigateTo || d == ObjectSrc || d == PluginTypes {
      LowerWordNames2(d);
    } else if d == PrefetchSrc || d == ReportTo || d == ReportUri || d == Sandbox || d == ScriptSrc || d == ScriptSrcAttr {
      LowerWordNames3(d);
    } else {
      LowerWordNames4(d);
    }
  }

  /** Lower-case letters and hyphens only. */
  predicate IsLowerWord(s: string) {
    forall i :: 0 <= i < |s| ==> s[i] == '-' || 'a' <= s[i] <= 'z'
  }

  lemma LowerWordNames1(d: Directive)
    requires d == BaseUri || d == ConnectSrc || d == ChildSrc || d == DefaultSrc || d == FontSrc || d == FormAction || d == FrameAncestors
    ensures var n := Name(d); |n| > 0 && 'a' <= n[0] <= 'z' && 'a' <= n[|n| - 1] <= 'z'
    ensures IsLowerWord(Name(d))
  {
  }

  lemma LowerWordNames2(d: Directive)
    requires d == FrameSrc || d == ImgSrc || d == ManifestSrc || d == MediaSrc || d == NavigateTo || d == ObjectSrc || d == PluginTypes
    ensures var n := Name(d); |n| > 0 && 'a' <= n[0] <= 'z' && 'a' <= n[|n| - 1] <= 'z'
    ensures IsLowerWord(Name(d))
  {
  }

  lemma LowerWordNames3(d: Directive)
    requires d == PrefetchSrc || d == ReportTo || d == ReportUri || d == Sandbox || d == ScriptSrc || d == ScriptSrcAttr
    ensures var n := Name(d); |n| > 0 && 'a' <= n[0] <= 'z' && 'a' <= n[|n| - 1] <= 'z'
    ensures IsLowerWord(Name(d))
  {
  }

  lemma LowerWordNames4(d: Directive)
    requires d == ScriptSrcElem || d == StyleSrc || d == StyleSrcAttr || d == StyleSrcElem || d == UpgradeInsecureRequests || d == WorkerSrc
    ensures var n := Name(d); |n| > 0 && 'a' <= n[0] <= 'z' && 'a' <= n[|n| - 1] <= 'z'
    ensures IsLowerWord(Name(d))
  {
  }

  /** The plugin case label names no registered directive. */
  lemma PluginTypeLabelUnregistered(d: Directive)
    ensures Name(d) != PluginTypeLabel
  {
    DecodeNameInverse(d);
    assert DecodeName(PluginTypeLabel) == Some(NavigateTo);
  }

  // ---------------------------------------------------------------------------
  // The allowlist, one keyword at a time

  /** The alternation matches exactly when one of its alternatives does (and the
      empty alternation only the empty string). */
  lemma {:induction false} MatchesAnyExists(patterns: seq<Pattern>, s: string)
    requires s != []
    ensures MatchesAny(patterns, s) <==> exists k :: 0 <= k < |patterns| && Matches(patterns[k], s)
  {
    if |patterns| > 1 {
      MatchesAnyExists(patterns[1..], s);
      assert forall k :: 1 <= k < |patterns| ==> patterns[k] == patterns[1..][k - 1];
    }
  }

  /** A plain quoted keyword is neither a nonce nor a hash. */
  lemma KeywordNotParametrised(s: string)
    requires s in ["'none'", "'self'", "'unsafe-eval'", "'unsafe-inline'", "'strict-dynamic'", "'unsafe-hashes'"]
    ensures !Matches(SourceNonce, s) && !Matches(SourceSha, s)
  {
    assert s[1] != 'n' || |s| < 8;
    assert s[1] != 's' || s[2] != 'h';
  }

  /** Every directive outside the report family takes `'none'` and `'self'`, in any letter case. */
  lemma NoneAndSelfBaseline(d: Directive, v: string)
    requires FamilyOf(d) != ReportFamily
    requires Lower(v) == "'none'" || Lower(v) == "'self'"
    ensures AllowedItem(d, v)
  {
    var p := PatternsFor(d);
    assert p[0] == SourceNone && p[1] == SourceSelf;
    MatchesAnyExists(p, Lower(v));
    if Lower(v) == "'self'" {
      assert Matches(p[1], Lower(v));
    } else {
      assert Matches(p[0], Lower(v));
    }
  }

  /** Report directives accept no quoted value at all. */
  lemma ReportAcceptsNothing(d: Directive, v: string)
    requires FamilyOf(d) == ReportFamily && v != []
    ensures !AllowedItem(d, v)
  {
  }

  /** `'strict-dynamic'` is accepted by the script family and by nothing else. */
  lemma StrictDynamicOnlyScriptFamily(d: Directive, v: string)
    requires Lower(v) == "'strict-dynamic'"
    ensures AllowedItem(d, v) <==> FamilyOf(d) == ScriptFamily
  {
    StrictDynamicIn(FamilyOf(d), Lower(v));
  }

  /** The same, for the patterns of a family and a lower-cased value. */
  lemma StrictDynamicIn(f: Family, s: string)
    requires s == "'strict-dynamic'"
    ensures MatchesAny(FamilyPatterns(f), s) <==> f == ScriptFamily
  {
    var p := FamilyPatterns(f);
    MatchesAnyExists(p, s);
    KeywordNotParametrised(s);
    if f == ScriptFamily {
      assert Matches(p[6], s);
    }
  }

  /** `'unsafe-hashes'` and `'unsafe-eval'` are accepted by the script and worker
      families and by nothing else. */
  lemma UnsafeEvalAndHashesFamilies(d: Directive, v: string)
    requires Lower(v) == "'unsafe-hashes'" || Lower(v) == "'unsafe-eval'"
    ensures AllowedItem(d, v) <==> FamilyOf(d) in {ScriptFamily, WorkerFamily}
  {
    UnsafeEvalAndHashesIn(FamilyOf(d), Lower(v));
  }

  /** The same, for the patterns of a family and a lower-cased value. */
  lemma UnsafeEvalAndHashesIn(f: Family, s: string)
    requires s == "'unsafe-hashes'" || s == "'unsafe-eval'"
    ensures MatchesAny(FamilyPatterns(f), s) <==> f in {ScriptFamily, WorkerFamily}
  {
    var p := FamilyPatterns(f);
    MatchesAnyExists(p, s);
    KeywordNotParametrised(s);
    if f == ScriptFamily {
      if s == "'unsafe-eval'" { assert Matches(p[2], s); } else { assert Matches(p[7], s); }
    } else if f == WorkerFamily {
      if s == "'unsafe-eval'" { assert Matches(p[2], s); } else { assert Matches(p[6], s); }
    }
  }

  /** `'unsafe-inline'` is accepted by the script, worker and style families and by nothing else. */
  lemma UnsafeInlineFamilies(d: Directive, v: string)
    requires Lower(v) == "'unsafe-inline'"
    ensures AllowedItem(d, v) <==> FamilyOf(d) in {ScriptFamily, WorkerFamily, StyleFamily}
  {
    UnsafeInlineIn(FamilyOf(d), Lower(v));
  }

  /** The same, for the patterns of a family and a lower-cased value. */
  lemma UnsafeInlineIn(f: Family, s: string)
    requires s == "'unsafe-inline'"
    ensures MatchesAny(FamilyPatterns(f), s) <==> f in {ScriptFamily, WorkerFamily, StyleFamily}
  {
    var p := FamilyPatterns(f);
    MatchesAnyExists(p, s);
    KeywordNotParametrised(s);
    if f in {ScriptFamily, WorkerFamily} {
      assert Matches(p[3], s);
    } else if f == StyleFamily {
      assert Matches(p[2], s);
    }
  }

  /** A well-formed nonce is accepted by the script, worker and style families and by nothing else. */
  lemma NonceFamilies(d: Directive, v: string)
    requires Matches(SourceNonce, Lower(v))
    ensures AllowedItem(d, v) <==> FamilyOf(d) in {ScriptFamily, WorkerFamily, StyleFamily}
  {
    NonceIn(FamilyOf(d), Lower(v));
  }

  /** The same, for the patterns of a family and a lower-cased value. */
  lemma NonceIn(f: Family, s: string)
    requires Matches(SourceNonce, s)
    ensures MatchesAny(FamilyPatterns(f), s) <==> f in {ScriptFamily, WorkerFamily, StyleFamily}
  {
    var p := FamilyPatterns(f);
    MatchesAnyExists(p, s);
    assert !Matches(SourceSha, s) by { assert s[1] == 'n'; }
    if f in {ScriptFamily, WorkerFamily} {
      assert Matches(p[5], s);
    } else if f == StyleFamily {
      assert Matches(p[4], s);
    }
  }

  /** Lower-casing keeps a run of base64 characters one. */
  lemma LowerAllBase64(s: string)
    requires AllBase64Chars(s)
    ensures AllBase64Chars(Lower(s))
  {
    var l := Lower(s);
    forall i | 0 <= i < |l|
      ensures IsBase64Char(l[i])
    {
      assert IsBase64Char(s[i]);
    }
  }

  /** Lower-casing a base64 body followed by padding lower-cases the body alone. */
  lemma LowerPadded(b: string, k: nat)
    requires k <= |b|
    requires forall i :: k <= i < |b| ==> b[i] == '='
    requires AllBase64Chars(b[..k])
    ensures Lower(b)[..k] == Lower(b[..k])
    ensures Lower(b)[k..] == b[k..]
    ensures AllBase64Chars(Lower(b)[..k])
  {
    assert b == b[..k] + b[k..];
    LowerConcat(b[..k], b[k..]);
    LowerNoop(b[k..]);
    LowerAllBase64(b[..k]);
  }

  /** Lower-casing keeps a base64 value base64 (upper-case letters become lower-case
      letters and the padding stays put). */
  lemma LowerBase64(b: string)
    requires IsBase64(b)
    ensures IsBase64(Lower(b))
  {
    if |b| >= 1 && AllBase64Chars(b) {
      LowerAllBase64(b);
    } else if |b| >= 2 && b[|b| - 1] == '=' && AllBase64Chars(b[..|b| - 1]) {
      LowerPadded(b, |b| - 1);
      assert Lower(b)[|b| - 1] == '=' by { assert Lower(b)[|b| - 1..] == b[|b| - 1..]; }
    } else {
      assert b[|b| - 2..] == "==";
      assert b[|b| - 2] == '=' && b[|b| - 1] == '=' by { assert b[|b| - 2..][0] == b[|b| - 2]; }
      LowerPadded(b, |b| - 2);
    }
  }

  /** `'nonce-<base64>'` is a nonce in any letter case. */
  lemma NonceAnyCase(b: string)
    requires IsBase64(b)
    ensures Matches(SourceNonce, Lower("'nonce-" + b + "'"))
  {
    var s := Lower("'nonce-" + b + "'");
    LowerConcat("'nonce-" + b, "'");
    LowerConcat("'nonce-", b);
    LowerNoop("'nonce-");
    LowerNoop("'");
    assert s == "'nonce-" + Lower(b) + "'";
    assert s[..7] == "'nonce-";
    assert s[7..|s| - 1] == Lower(b);
    LowerBase64(b);
  }

  /** A well-formed `'sha256-'`, `'sha384-'` or `'sha512-'` hash is accepted by the
      script, worker and style families and by nothing else. */
  lemma HashFamilies(d: Directive, v: string)
    requires Matches(SourceSha, Lower(v))
    ensures AllowedItem(d, v) <==> FamilyOf(d) in {ScriptFamily, WorkerFamily, StyleFamily}
  {
    HashIn(FamilyOf(d), Lower(v));
  }

  /** The same, for the patterns of a family and a lower-cased value. */
  lemma HashIn(f: Family, s: string)
    requires Matches(SourceSha, s)
    ensures MatchesAny(FamilyPatterns(f), s) <==> f in {ScriptFamily, WorkerFamily, StyleFamily}
  {
    var p := FamilyPatterns(f);
    MatchesAnyExists(p, s);
    assert !Matches(SourceNonce, s) by { assert s[1] == 's'; }
    if f in {ScriptFamily, WorkerFamily} {
      assert Matches(p[4], s);
    } else if f == StyleFamily {
      assert Matches(p[3], s);
    }
  }

  /** Matching ignores letter case, so a value and its lower case are judged alike. */
  lemma AllowedIgnoresCase(d: Directive, v: string)
    ensures AllowedItem(d, v) <==> AllowedItem(d, Lower(v))
  {
    LowerIdempotent(v);
  }

  /** Because the plugin case is labelled `plugin-type`, `plugin-types` falls through
      to the baseline: it takes `'self'` as well as `'none'`, and nothing else quoted. */
  lemma PluginTypesBaseline(v: string)
    ensures AllowedItem(PluginTypes, v) <==> Lower(v) == "'none'" || Lower(v) == "'self'"
  {
    var p := PatternsFor(PluginTypes);
    assert p == [SourceNone, SourceSelf];
    if Lower(v) != [] {
      MatchesAnyExists(p, Lower(v));
      if AllowedItem(PluginTypes, v) {
        var k :| 0 <= k < |p| && Matches(p[k], Lower(v));
        assert p[k] == SourceNone || p[k] == SourceSelf;
      }
    } else {
      assert p[1..] == [SourceSelf];
      assert !MatchesAny(p[1..], Lower(v));
    }
    if Lower(v) == "'none'" || Lower(v) == "'self'" {
      NoneAndSelfBaseline(PluginTypes, v);
    }
  }
}
