# Content-Security-Policy builder and tokenizer, in Dafny

This project models the two components of the PHP library `tomcan/content-security-policy`:

- **The policy builder** (`ContentSecurityPolicy`). This is an object holding directives, a mode, a report-only flag and an output mode.
  - `addToDirective` normalises a directive name and rejects names outside the registry.
  - It then dispatches to one of three handlers: `sandbox`, `upgrade-insecure-requests`, or every other ("basic") directive.
  - The basic handler checks a quoted value against the allowlist of the directive's family. In strict mode a rejected value throws; in any other mode it is dropped.
  - `__toString` renders the present directives in registry order, optionally behind a header name.
- **The header tokenizer** (`CspParser::parse`). It strips an optional `Content-Security-Policy[-Report-Only]:` prefix and splits on `;` and then on single spaces. It keeps values by its own, smaller table of directives and predefined quoted values: it never calls the builder. It throws only for a directive it does not know.

Files:

| file | module | contents |
|---|---|---|
| `wrappers.dfy` | `Wrappers` | `Option` (PHP `null`), `Result` (a value or an exception), `Outcome` (a `void` call that returns or throws) |
| `php_strings.dfy` | `PhpStrings` | PHP's `trim`, `strtolower` (ASCII, PHP 8.2), `explode` and `implode` with a one-character separator, PCRE `\s` |
| `php_arrays.dfy` | `PhpArrays` | the idiom `$a[$k][$v] = $v`: a duplicate-free list in first-insertion order |
| `csp_grammar.dfy` | `CspGrammar` | the directive registry, sandbox tokens, source-list patterns, family allowlists, the exception datatype |
| `content_security_policy.dfy` | `Csp` | the builder. Each handler is specified by a function (`AddStep`, `BasicStep`, `SandboxStep`, `Render`). The class `ContentSecurityPolicy` has methods proved against those functions, plus the lemmas about them. |
| `csp_parser.dfy` | `CspParser` | the tokenizer: its imperative `Parse` with nested loops, proved equal to the function `ParseHeader`, and lemmas about it |
| `round_trip.dfy` | `CspRoundTrip` | the rendering format of several directives, and parsing what the builder renders gives the builder's directives back |
| `csp_to_string_test.dfy` | `CspToStringTest` | the builder's rendering test `testToCspString`, call by call: each state it reaches and the string it renders |
| `test_literals.dfy` | `TestLiterals` | the test's expected lines put together from their words |

Representation choices:
- Exceptions are values of `CspError`: `InvalidArgument`, `InvalidDirective` and `InvalidSourceListItem`.
- A method that may throw returns an `Outcome`, and the state it leaves behind is stated in both cases.
- Directives are a datatype with one constructor per `DIRECTIVE_*` constant. `Name` gives their spelling, and `ValidDirectives` gives the registry order.
- The integer-valued mode and output mode stay `int`. The setters accept any integer. Only `0` means strict, and only `0` means full header.

Where the prose description of the library and the code differ, the model follows the code:
- The tokenizer shown is the older one. It returns a plain array and validates nothing beyond its own table. It does not feed values through `addToDirective`.
- A `null` value reaches only the `sandbox` and `upgrade-insecure-requests` handlers. The basic handler's `string $value` parameter refuses it.
- `'plugin-types'` gets the `'none'`/`'self'` baseline, because the switch's case label is `'plugin-type'`.

## Model

| member | source | states |
|---|---|---|
| CspGrammar.Name | src/ContentSecurityPolicy.php:13-38 | the spelling of each `DIRECTIVE_*` constant; `ValidDirectives` lists the directives in the order of `VALID_DIRECTIVES` (lines 40-67) |
| CspGrammar.DirectiveNamed | src/ContentSecurityPolicy.php:140 | `in_array($directive, VALID_DIRECTIVES)`: the registered directive of that name, if there is one |
| CspGrammar.FamilyOf | src/ContentSecurityPolicy.php:169-214 | the case group of the allowlist `switch` a directive falls in; a directive without a case label gets the `'none'`/`'self'` baseline |
| CspGrammar.IsBase64 | src/ContentSecurityPolicy.php:96-98 | `[A-Za-z0-9+/]+={0,2}`: base64 characters, then at most two `=` |
| CspGrammar.Matches | src/ContentSecurityPolicy.php:100-108 | one `PAT_SOURCE_*` pattern, anchored at both ends, on a lower-cased value |
| CspGrammar.MatchesAny | src/ContentSecurityPolicy.php:217-218 | `/^(p1\|…)$/i`: some pattern of the list matches the whole value |
| CspGrammar.AllowedItem | src/ContentSecurityPolicy.php:164-218 | a quoted value passes when a pattern of its directive's family matches it in any letter case |
| CspGrammar.FindNamed | src/ContentSecurityPolicy.php:140 | the directive found has the looked-up name; when none is found, no directive of the list has that name |
| CspGrammar.DirectiveNamedExactly | src/ContentSecurityPolicy.php:138-142 | the registry lookup succeeds exactly on the 26 registered names, and answers with the directive of that name |
| CspGrammar.Registered | src/ContentSecurityPolicy.php:40-67 | every directive occurs in `VALID_DIRECTIVES`, and no directive occurs twice |
| CspGrammar.DecodeNameInverse | src/ContentSecurityPolicy.php:13-38 | a directive can be recovered from its name |
| CspGrammar.NameInjective | src/ContentSecurityPolicy.php:13-38 | distinct directives have distinct names |
| CspGrammar.NamedRoundTrip | src/ContentSecurityPolicy.php:138-140 | looking up a directive's own name finds that directive |
| CspGrammar.NameShape | src/ContentSecurityPolicy.php:13-38 | every directive name is non-empty, made of lower-case letters and hyphens, and starts and ends with a letter |
| CspGrammar.PatternsFor | src/ContentSecurityPolicy.php:165-215 | the pattern list starts with `'none'` and `'self'` for every family except the report directives, whose list is empty |
| CspGrammar.FamilyPatterns | src/ContentSecurityPolicy.php:165-215 | the same, per case group of the switch |
| CspGrammar.PluginTypeLabelUnregistered | src/ContentSecurityPolicy.php:195 | the case label `plugin-type` is the name of no registered directive |
| CspGrammar.PluginTypesBaseline | src/ContentSecurityPolicy.php:195-200 | `plugin-types` accepts a quoted value exactly when it is `'none'` or `'self'` in some letter case |
| CspGrammar.MatchesAnyExists | src/ContentSecurityPolicy.php:217-218 | the alternation `^(p1\|…)$` matches a non-empty value exactly when one alternative matches it in full |
| CspGrammar.KeywordNotParametrised | src/ContentSecurityPolicy.php:100-108 | no keyword token (`'none'`, `'self'`, `'unsafe-*'`, `'strict-dynamic'`) is also a nonce or a hash |
| CspGrammar.NoneAndSelfBaseline | src/ContentSecurityPolicy.php:165-168 | every directive outside the report family accepts `'none'` and `'self'` in any letter case |
| CspGrammar.ReportAcceptsNothing | src/ContentSecurityPolicy.php:210-214 | `report-uri` and `report-to` accept no quoted value |
| CspGrammar.StrictDynamicOnlyScriptFamily | src/ContentSecurityPolicy.php:170-183 | `'strict-dynamic'` is accepted exactly by the script family |
| CspGrammar.StrictDynamicIn | src/ContentSecurityPolicy.php:170-183 | the same, for a family's pattern list and a lower-cased value |
| CspGrammar.UnsafeEvalAndHashesFamilies | src/ContentSecurityPolicy.php:170-193 | `'unsafe-eval'` and `'unsafe-hashes'` are accepted exactly by the script and worker families |
| CspGrammar.UnsafeEvalAndHashesIn | src/ContentSecurityPolicy.php:170-193 | the same, per family |
| CspGrammar.UnsafeInlineFamilies | src/ContentSecurityPolicy.php:170-208 | `'unsafe-inline'` is accepted exactly by the script, worker and style families |
| CspGrammar.UnsafeInlineIn | src/ContentSecurityPolicy.php:170-208 | the same, per family |
| CspGrammar.NonceFamilies | src/ContentSecurityPolicy.php:170-208 | a well-formed nonce is accepted exactly by the script, worker and style families |
| CspGrammar.NonceIn | src/ContentSecurityPolicy.php:170-208 | the same, per family |
| CspGrammar.HashFamilies | src/ContentSecurityPolicy.php:170-208 | a well-formed `'sha256-'`, `'sha384-'` or `'sha512-'` hash is accepted exactly by the script, worker and style families |
| CspGrammar.HashIn | src/ContentSecurityPolicy.php:170-208 | the same, per family |
| CspGrammar.LowerBase64 | src/ContentSecurityPolicy.php:98 | lower-casing keeps a base64 payload (`[A-Za-z0-9+/]+={0,2}`) base64 |
| CspGrammar.NonceAnyCase | src/ContentSecurityPolicy.php:98-100 | `'nonce-<base64>'` matches the nonce pattern under the `/i` flag whatever its letter case |
| CspGrammar.AllowedIgnoresCase | src/ContentSecurityPolicy.php:217-218 | the allowlist cannot tell a value from its lower case |
| Csp.NormaliseDirective | src/ContentSecurityPolicy.php:138 | `trim(strtolower($directive))` |
| Csp.IsSourceListItem | src/ContentSecurityPolicy.php:161 | `^'.*'$`: at least two characters, the first and the last a `'` |
| Csp.AddStep | src/ContentSecurityPolicy.php:136-156 | `addToDirective` on the directives: a name that normalises to no registered directive throws `InvalidDirective` and changes nothing; a registered one runs `Apply` |
| Csp.Apply | src/ContentSecurityPolicy.php:144-154 | the `switch`: `sandbox` runs `SandboxStep`, `upgrade-insecure-requests` is reset to the empty list, every other directive runs `BasicStep` |
| Csp.BasicStep | src/ContentSecurityPolicy.php:158-232 | a quoted value the allowlist rejects changes nothing and throws `InvalidSourceListItem` in strict mode only; any other value is stored with `$m[$k][$v] = $v` |
| Csp.SandboxStep | src/ContentSecurityPolicy.php:234-246 | the sandbox entry is created first; `null` adds nothing; an option of `SandboxOptions` (`VALID_SANDBOX_OPTIONS`, lines 83-94) is stored; any other value throws in every mode and leaves the created entry |
| Csp.WellFormed | src/ContentSecurityPolicy.php:158-251 | what the handlers keep true of `$directives`: no value twice, only sandbox options under `sandbox`, nothing under `upgrade-insecure-requests`, only allowed quoted values |
| Csp.Segment | src/ContentSecurityPolicy.php:302 | `trim($directive . ' ' . implode(' ', $values)) . '; '` |
| Csp.Segments | src/ContentSecurityPolicy.php:299-303 | the loop's `$output`: the segments of the present directives, in the order of the list |
| Csp.Render | src/ContentSecurityPolicy.php:297-314 | the trimmed output, behind the header name in full-header mode |
| Csp.ContentSecurityPolicy.constructor | src/ContentSecurityPolicy.php:113-134 | a new policy has no directives, the given mode, no report-only flag and full-header output |
| Csp.ContentSecurityPolicy.New | src/ContentSecurityPolicy.php:128-134 | construction throws `InvalidArgumentException("Invalid mode specified")` exactly for a mode other than 0 and 1 |
| Csp.ContentSecurityPolicy.AddToDirective | src/ContentSecurityPolicy.php:136-156 | the new directives and the outcome are those of `AddStep` on the old directives, and the invariant `WellFormed` is kept |
| Csp.ContentSecurityPolicy.AddToBasicDirective | src/ContentSecurityPolicy.php:158-232 | the new directives and the outcome are those of `BasicStep`, and the invariant is kept |
| Csp.ContentSecurityPolicy.AddToSandbox | src/ContentSecurityPolicy.php:234-246 | the new directives and the outcome are those of `SandboxStep`, and the invariant is kept |
| Csp.ContentSecurityPolicy.AddNoValueDirective | src/ContentSecurityPolicy.php:248-251 | the directive is set to the empty list, nothing else changes, and the invariant is kept |
| Csp.ContentSecurityPolicy.SetReportOnly | src/ContentSecurityPolicy.php:253-256 | the flag is set to the value given |
| Csp.ContentSecurityPolicy.IsReportOnly | src/ContentSecurityPolicy.php:258-261 | answers the flag |
| Csp.ContentSecurityPolicy.GetDirectives | src/ContentSecurityPolicy.php:263-266 | answers the directives, which satisfy the invariant |
| Csp.ContentSecurityPolicy.GetDirective | src/ContentSecurityPolicy.php:268-275 | answers the values of the directive with exactly that (unnormalised) name when it is present, and `null` otherwise; the values are duplicate-free |
| Csp.ContentSecurityPolicy.GetMode | src/ContentSecurityPolicy.php:277-280 | answers the mode |
| Csp.ContentSecurityPolicy.SetMode | src/ContentSecurityPolicy.php:282-285 | any integer becomes the mode; the stored values keep the invariant |
| Csp.ContentSecurityPolicy.GetOutputMode | src/ContentSecurityPolicy.php:287-290 | answers the output mode |
| Csp.ContentSecurityPolicy.SetOutputMode | src/ContentSecurityPolicy.php:292-295 | any integer becomes the output mode |
| Csp.ContentSecurityPolicy.ToString | src/ContentSecurityPolicy.php:297-314 | the string is `Render` of the current state |
| Csp.AppendSegments | src/ContentSecurityPolicy.php:299-303 | the loop's `$output` is the segments of the present directives, in registry order |
| Csp.AddStepDispatch | src/ContentSecurityPolicy.php:136-156 | an unregistered normalised name throws `InvalidDirective` and changes nothing; a registered one runs that directive's handler |
| Csp.NormaliseIgnoresCase | src/ContentSecurityPolicy.php:138 | normalising a name lower-cased beforehand changes nothing |
| Csp.NormaliseRegisteredName | src/ContentSecurityPolicy.php:138 | a registered name is its own normal form |
| Csp.NormaliseLowerWord | src/ContentSecurityPolicy.php:138 | a lower-case word that starts and ends with a letter is its own normal form |
| Csp.AddByName | src/ContentSecurityPolicy.php:136-156 | a call naming a directive by its registered spelling runs that directive's handler |
| Csp.AddUnknownDirective | src/ContentSecurityPolicy.php:138-142 | a name that normalises to no registered directive throws `InvalidDirective` with the normalised name, in every mode, and leaves the directives unchanged |
| Csp.ApplyFailsExactly | src/ContentSecurityPolicy.php:144-245 | a handler throws exactly for a sandbox value outside the sandbox options (any mode), or for a quoted basic value the allowlist rejects in strict mode |
| Csp.ApplyUnquotedValue | src/ContentSecurityPolicy.php:161-231 | an unquoted value is always stored after the values already present; it then occurs exactly once |
| Csp.ApplyQuotedValue | src/ContentSecurityPolicy.php:161-231 | a quoted value ends up under its directive exactly when the allowlist accepts it |
| Csp.ApplyRejectedValue | src/ContentSecurityPolicy.php:218-224 | a rejected quoted value leaves the directives unchanged (the key is not even created); strict mode throws `InvalidSourceListItem`, any other mode returns normally |
| Csp.ApplySandbox | src/ContentSecurityPolicy.php:234-246 | the sandbox entry exists afterwards even when the call throws; a token outside the options throws in every mode; a valid token is inserted once; other directives are untouched |
| Csp.ApplyUpgradeInsecureRequests | src/ContentSecurityPolicy.php:248-251 | `upgrade-insecure-requests` is reset to the empty list whatever the value, discarding earlier contents |
| Csp.ApplyFrame | src/ContentSecurityPolicy.php:136-251 | a handler for a directive leaves every other directive as it was |
| Csp.BasicStepFrame | src/ContentSecurityPolicy.php:158-232 | the basic handler leaves every other directive as it was |
| Csp.SandboxStepFrame | src/ContentSecurityPolicy.php:234-246 | the sandbox handler leaves every other directive as it was |
| Csp.ApplyLocal | src/ContentSecurityPolicy.php:136-251 | a handler's outcome and result for its directive depend only on that directive's entry |
| Csp.BasicStepLocal | src/ContentSecurityPolicy.php:158-232 | the same for the basic handler |
| Csp.SandboxStepLocal | src/ContentSecurityPolicy.php:234-246 | the same for the sandbox handler |
| Csp.ApplyKeepsOrder | src/ContentSecurityPolicy.php:227-241 | except for `upgrade-insecure-requests`, a handler keeps every present directive, with the values already stored in front in their order and at most one new value after them |
| Csp.ApplyIdempotent | src/ContentSecurityPolicy.php:136-251 | repeating a call changes nothing more and gives the same outcome |
| Csp.ApplyCommutes | src/ContentSecurityPolicy.php:136-251 | calls on two different directives commute, with the same outcomes |
| Csp.AddIdempotent | src/ContentSecurityPolicy.php:136-156 | `addToDirective` repeated with the same arguments changes nothing more and gives the same outcome |
| Csp.AddCommutes | src/ContentSecurityPolicy.php:136-156 | `addToDirective` calls with different normalised names commute, with the same outcomes |
| Csp.BasicStepPreservesWellFormed | src/ContentSecurityPolicy.php:158-232 | the basic handler keeps the invariant (no duplicates, only allowed quoted values) |
| Csp.StorePreservesWellFormed | src/ContentSecurityPolicy.php:227-231 | storing an unquoted or allowed value under a basic directive keeps the invariant |
| Csp.SandboxStepPreservesWellFormed | src/ContentSecurityPolicy.php:234-246 | the sandbox handler keeps the invariant (only sandbox options under `sandbox`) |
| Csp.ApplyPreservesWellFormed | src/ContentSecurityPolicy.php:144-154 | every handler keeps the invariant |
| Csp.AddPreservesWellFormed | src/ContentSecurityPolicy.php:136-156 | `addToDirective` keeps the invariant, whether it returns or throws |
| Csp.RenderHeader | src/ContentSecurityPolicy.php:305-313 | a full header is the header name (the report-only one when the flag is set) followed by exactly the value-only rendering; outside full-header mode the flag does not matter |
| Csp.RenderTrimmed | src/ContentSecurityPolicy.php:312 | the value-only rendering has no white space at either end |
| Csp.SegmentsEmpty | src/ContentSecurityPolicy.php:300-303 | the loop produces nothing exactly when no directive of the list is present |
| Csp.RenderEmpty | src/ContentSecurityPolicy.php:297-314 | an empty policy renders as the empty string, or as the bare header name |
| Csp.SegmentsOfOne | src/ContentSecurityPolicy.php:300-303 | with one directive present, the loop produces that directive's segment alone |
| Csp.TrimSegment | src/ContentSecurityPolicy.php:302 | a trimmed segment is the directive's name, a space and its values joined by spaces, then `;` (just `name;` for no values) |
| Csp.TrimLine | src/ContentSecurityPolicy.php:302 | trimming `name + " " + implode(" ", values)` drops only the space that an empty list leaves |
| Csp.RenderSingleDirective | src/ContentSecurityPolicy.php:297-314 | a policy with one directive renders as its line and `;`, e.g. `sandbox;` for an empty set |
| Csp.StrictStore | src/ContentSecurityPolicy.php:136-232 | in strict mode an unquoted or allowed value is stored under its directive without throwing |
| Csp.SampleScriptFamilyItems | tests/CspTest.php:82-107 | `base-uri`, `child-src` and `form-action` accept `'self'`, `'unsafe-eval'` and `'nonce-ThisIsANonce123=='` |
| Csp.SampleScriptFamilyStored | tests/CspTest.php:82-107 | each value of those tests is stored, in strict mode, whatever the directives held before, and nothing is thrown |
| Csp.SampleFrameAncestorsStored | tests/CspTest.php:109-116 | `'self'`, `http:` and `https://www.tom.be` are stored under `frame-ancestors` in strict mode |
| Csp.SampleDefaultSrc | tests/CspTest.php:33-37 | with `default-src 'self'` alone, the value-only rendering is `default-src 'self';` |
| Csp.HeaderBeforeBody | src/ContentSecurityPolicy.php:305-310 | behind either header name stands the value-only rendering |
| Csp.SampleDefaultSrcHeader | tests/CspTest.php:55-65 | the same policy renders as `Content-Security-Policy: default-src 'self';`, and as `Content-Security-Policy-Report-Only: default-src 'self';` once report-only is set |
| CspToStringTest.EntriesNone | src/ContentSecurityPolicy.php:300-302 | directives of the list that are all absent add nothing to the rendering |
| CspToStringTest.EntriesSkip | src/ContentSecurityPolicy.php:300-302 | absent directives at the front of the list add nothing |
| CspToStringTest.EntriesHead | src/ContentSecurityPolicy.php:300-302 | the first directive of the list gives its line when present, then the rest follow |
| CspToStringTest.RegistrySkip | src/ContentSecurityPolicy.php:40-67 | a stretch of the registry holding no present directive adds nothing |
| CspToStringTest.RegistryHead | src/ContentSecurityPolicy.php:40-67 | from any place of the registry on, the directive there comes first |
| CspToStringTest.TestEntries | src/ContentSecurityPolicy.php:40-67 | with only `default-src`, `report-to`, `sandbox` and `script-src` present, they are rendered in that order, whatever order they were added in |
| CspToStringTest.BodyTwo | src/ContentSecurityPolicy.php:302-312 | two directives render as their lines, separated by `; ` and ended by `;` |
| CspToStringTest.BodyThree | src/ContentSecurityPolicy.php:302-312 | the same for three directives |
| CspToStringTest.BodyFour | src/ContentSecurityPolicy.php:302-312 | the same for four directives |
| CspToStringTest.TestRender | src/ContentSecurityPolicy.php:297-314 | a policy of the test's directives renders as the lines of those present, in registry order |
| CspToStringTest.AddStores | src/ContentSecurityPolicy.php:136-232 | in strict mode, a basic directive named by its spelling stores an unquoted or allowed value and returns normally |
| CspToStringTest.AddSandboxNull | src/ContentSecurityPolicy.php:136-156 | `addToDirective('sandbox', null)` is permitted, creates the sandbox entry if it is missing, and changes nothing else |
| CspToStringTest.AddSandboxOption | src/ContentSecurityPolicy.php:234-246 | `addToDirective('sandbox', option)` stores a sandbox option and returns normally |
| CspToStringTest.Call1 | tests/CspTest.php:33-36 | `addToDirective('default-src', "'self'")` on a new strict policy passes and stores `'self'` |
| CspToStringTest.Call2 | tests/CspTest.php:39 | adding `https://www.tom.be` puts it after `'self'` |
| CspToStringTest.Call3 | tests/CspTest.php:42 | `'unsafe-inline'` is allowed for `script-src` and stored |
| CspToStringTest.Call4 | tests/CspTest.php:45 | `addToDirective('sandbox', null)` is permitted and creates an empty sandbox |
| CspToStringTest.Call5 | tests/CspTest.php:48 | `allow-popups` is a sandbox option and is stored |
| CspToStringTest.Call6 | tests/CspTest.php:51 | `my-endpoint` is not quoted and is stored under `report-to` |
| CspToStringTest.RenderState2 | tests/CspTest.php:40 | the policy renders as `default-src 'self' https://www.tom.be;` |
| CspToStringTest.RenderState3 | tests/CspTest.php:43 | the policy renders as `default-src 'self' https://www.tom.be; script-src 'unsafe-inline';` |
| CspToStringTest.RenderState4 | tests/CspTest.php:46 | the policy renders as `default-src 'self' https://www.tom.be; sandbox; script-src 'unsafe-inline';` |
| CspToStringTest.RenderState5 | tests/CspTest.php:49 | the policy renders as `default-src 'self' https://www.tom.be; sandbox allow-popups; script-src 'unsafe-inline';` |
| CspToStringTest.RenderState6 | tests/CspTest.php:52 | the policy renders as `default-src 'self' https://www.tom.be; report-to my-endpoint; sandbox allow-popups; script-src 'unsafe-inline';` |
| PhpArrays.Insert | src/ContentSecurityPolicy.php:228 | `$arr[$v] = $v` holds `v` afterwards, keeps the old values as a prefix, adds nothing else and keeps the list duplicate-free |
| PhpArrays.StoreValue | src/ContentSecurityPolicy.php:227-231 | `$m[$k][$v] = $v` creates `k` when absent, inserts `v` there and touches no other key |
| PhpArrays.StoreValueIdempotent | src/ContentSecurityPolicy.php:227-231 | storing the same value twice is storing it once |
| PhpArrays.StoredOnce | src/ContentSecurityPolicy.php:227-231 | after storing, the value occurs exactly once |
| PhpStrings.TrimLeft | src/CspParser.php:12 | the leading part of `trim`: the result is a suffix of the input, everything cut off is a trim space, and the result does not start with one |
| PhpStrings.TrimRight | src/CspParser.php:12 | the trailing part of `trim`: the result is a prefix of the input, everything cut off is a trim space, and the result does not end with one |
| PhpStrings.Trim | src/ContentSecurityPolicy.php:138 | `trim` leaves no trim space at either end, never lengthens, and gives `""` exactly for an all-space string |
| PhpStrings.TrimStripsSpaces | src/ContentSecurityPolicy.php:138 | `trim` gives an infix of the input, with only trim spaces cut off before and after it |
| PhpStrings.Join | src/ContentSecurityPolicy.php:302 | `implode`: every character of the result other than the separator comes from one of the parts |
| PhpStrings.TrimIdempotent | src/CspParser.php:12-24 | trimming twice is trimming once |
| PhpStrings.Lower | src/ContentSecurityPolicy.php:138 | `strtolower` keeps the length, leaves no upper-case letter and changes no other character |
| PhpStrings.LowerIdempotent | src/CspParser.php:33 | lower-casing twice is lower-casing once |
| PhpStrings.Split | src/CspParser.php:28-31 | `explode` gives at least one piece, and no piece holds the separator |
| PhpStrings.JoinSplit | src/CspParser.php:28 | `implode(sep, explode(sep, s)) == s` |
| PhpStrings.SplitJoin | src/ContentSecurityPolicy.php:302 | `explode(sep, implode(sep, parts)) == parts` when no part holds the separator |
| PhpStrings.SplitConcat | src/CspParser.php:28 | `explode` of `a + sep + b` is the pieces of `a` and then those of `b` |
| CspParser.ParseHeader | src/CspParser.php:9-78 | `parse`: trim, strip a matched header, `explode(';')`, then the items in order |
| CspParser.ParseItems | src/CspParser.php:29-75 | the `foreach` over the items, stopping at the first exception |
| CspParser.ParseItem | src/CspParser.php:31-73 | one item: its directive's predefined list, or `Unknown directive`, then its parts |
| CspParser.ItemDirective | src/CspParser.php:31-33 | the lower-cased first word of the trimmed item |
| CspParser.Predefined | src/CspParser.php:35-61 | the `switch` with fall-through as the table `ParserTable`; a directive outside it is unknown |
| CspParser.IsQuotedPart | src/CspParser.php:65 | first and last character `'`; a lone `'` counts |
| CspParser.AddPart | src/CspParser.php:65-72 | a quoted part is stored only when predefined, any other part always |
| CspParser.AddParts | src/CspParser.php:64-73 | the parts of an item, left to right |
| CspParser.ColonAfterSpaces | src/CspParser.php:18 | `\s*:(.*)` matches exactly white space, a colon and the captured rest |
| CspParser.HeaderMatch | src/CspParser.php:18-25 | a match starts with `content-security-policy` in any letter case, and is report-only only when `-report-only` follows in any letter case |
| CspParser.HeaderMatchShape | src/CspParser.php:18-25 | a matched input is the header name, the optional suffix exactly when the flag is set, white space, a colon and then the captured value |
| CspParser.HeaderMatchAccepts | src/CspParser.php:18-25 | the header name in any case, white space, a colon and a value match, without the report-only flag, capturing the value |
| CspParser.HeaderMatchAcceptsReportOnly | src/CspParser.php:18-22 | the same with the `-report-only` suffix in any case, with the flag |
| CspParser.PredefinedFor | src/CspParser.php:34-61 | the `switch` with fall-through builds exactly the parser's table: `script-src` gets `'unsafe-eval'`, `'unsafe-inline'`, `'none'` and `'self'`; `style-src` gets the last three; seven fetch directives get the last two; the report directives and `''` get nothing; anything else is unknown |
| CspParser.AddItemParts | src/CspParser.php:64-73 | the inner loop computes `AddParts`: unquoted parts always, quoted parts only when predefined |
| CspParser.AddItem | src/CspParser.php:31-73 | one item is split on single spaces, its first word lower-cased as the directive, and its parts added; an unknown directive throws `Unknown directive` |
| CspParser.Parse | src/CspParser.php:9-78 | `parse` computes `ParseHeader`: trim, optional header prefix, split on `;`, items in order, stopping at the first exception |
| CspParser.BlankItem | src/CspParser.php:31-57 | an empty or blank item changes nothing and throws nothing |
| CspParser.ParseBlank | src/CspParser.php:9-78 | an empty or blank input gives an empty result without the report-only flag |
| CspParser.ParseItemsStep | src/CspParser.php:29-61 | an exception in the first item is the exception of the whole `foreach`; otherwise the loop goes on with the next item |
| CspParser.UnknownDirective | src/CspParser.php:58-61 | an item fails exactly when its lower-cased first word is outside the table, with the message naming it |
| CspParser.ParseItemsFails | src/CspParser.php:29-61 | parsing fails exactly when some item names an unknown directive |
| CspParser.ParseItemsFailureCause | src/CspParser.php:29-61 | a failure is caused by an item with an unknown directive, whose index is returned |
| CspParser.ParseItemsFailsAt | src/CspParser.php:29-61 | one item with an unknown directive makes the whole parse fail |
| CspParser.NewerDirectivesUnknown | src/CspParser.php:35-61 | `sandbox`, `worker-src`, `base-uri` and `upgrade-insecure-requests` are unknown to the parser |
| CspParser.AddPartsFrame | src/CspParser.php:64-73 | the parts of an item touch only that item's directive |
| CspParser.AddPartsValues | src/CspParser.php:64-73 | afterwards the directive holds the old values as a prefix, plus exactly the unquoted and the predefined quoted parts, without duplicates |
| CspParser.AddPartsKept | src/CspParser.php:64-73 | the values kept are the old ones, the unquoted parts and the predefined quoted parts, without duplicates |
| CspParser.AddPartsOrder | src/CspParser.php:64-73 | the old values stay a prefix, in order |
| CspParser.AddPartsAppend | src/CspParser.php:64-73 | distinct parts that are all kept are appended in order |
| CspParser.AddPartsCreates | src/CspParser.php:64-73 | the directive's key exists afterwards exactly when it existed before or some part was kept |
| CspParser.BareDirective | src/CspParser.php:63-73 | a known directive without values creates no entry |
| CspParser.DoubleSpaceStoresEmpty | src/CspParser.php:31-72 | two consecutive spaces store the empty string as a value, next to the real one |
| CspParser.EmptyPartStored | src/CspParser.php:31-72 | an item splitting into a directive, `""` and a value stores both of the latter |
| CspParser.SplitDoubleSpace | src/CspParser.php:31 | `explode(" ", a . "  " . b)` is `[a, "", b]` |
| CspParser.KeptParts | src/CspParser.php:70-72 | unquoted parts are all stored |
| CspParser.ParseItemsNoDup | src/CspParser.php:29-75 | the items keep every value list duplicate-free |
| CspParser.ParsedNoDup | src/CspParser.php:9-78 | no value occurs twice under a directive of the result |
| CspRoundTrip.RenderedBody | src/ContentSecurityPolicy.php:297-314 | for every policy whose values are non-empty and end in a character `trim` keeps (any directive, `sandbox` and `upgrade-insecure-requests` included, and empty value lists too), a value-only rendering is `""` when no directive is present and otherwise the present directives' lines in registry order, each ended by `;`, separated by single spaces |
| CspRoundTrip.SplitBody | src/CspParser.php:28 | splitting a rendering on `;` gives one item per rendered directive, then an empty item |
| CspRoundTrip.ParseLine | src/CspParser.php:31-73 | one rendered line is read back as its directive and exactly its values |
| CspRoundTrip.ParseChunks | src/CspParser.php:29-75 | the items of a rendering are read back entry by entry |
| CspRoundTrip.HeaderRecognised | src/CspParser.php:18-24 | both header names the builder writes are recognised by the parser's pattern, with the right report-only flag and the rendered body as the captured value |
| CspRoundTrip.NotAHeader | src/CspParser.php:18 | a value-only rendering is never taken for a header |
| CspRoundTrip.CollectedRendering | src/CspParser.php:64-73 | what the parser collects from a rendering is exactly the rendered directives, keyed by name |
| CspRoundTrip.RoundTripFull | src/CspParser.php:9-78 | a rendered full header is read back with its report-only flag |
| CspRoundTrip.RoundTripValueOnly | src/CspParser.php:9-78 | a rendered value is read back without the report-only flag |
| CspRoundTrip.RoundTrip | src/CspParser.php:9-78 | parsing a rendering succeeds and gives every directive present back under its name with exactly its values, and no other key. It reports report-only exactly when a report-only full header was rendered. |

## Left out

- `fromCspString` (src/ContentSecurityPolicy.php:120-126) is not modelled. It passes a mode to a parser that has no constructor. It also declares a `ContentSecurityPolicy` result, while the parser returns an array. The two components are modelled separately.
- tests/ParserTest.php targets a newer parser: it takes a mode, knows `sandbox` and returns a policy object. It is not part of this model.
- `PAT_PLUGIN_TYPE` is not modelled. Because of the `'plugin-type'` case label it is never used. (Its unescaped `/` would also end the `/…/i` delimiters early.)
- The PCRE engine is replaced by one predicate per fixed pattern. `$` is a true end of string: PCRE's allowance for a final newline is ignored, and so is the rule that `.` does not match a newline (in `^'.*'$` and in the header pattern's `(.*)`).
- Csp.ContentSecurityPolicy.AddToDirective: the PHP `TypeError` for a `null` value on a basic directive is the precondition `NullPermitted`. It is not an error case.
- Exception messages are kept only for `InvalidArgument`. The sprintf'd message of `CspInvalidSourceListItemException` is represented by the value and the directive it quotes.
- PHP loose comparison in `in_array` is string equality. Every operand is a string.
- The builder's directives are a Dafny `map`, so the insertion order of the outer PHP array is not modelled. Rendering never depends on it: it follows the registry. The parser's result is likewise a map, and its report-only entry `report => [report-only => true]` is the separate field `ParsedPolicy.reportOnly`.
- Csp.ContentSecurityPolicy.constructor requires a valid mode. Its throwing path is the static method `New`.
- The loops of `__toString` and `parse` are methods (`AppendSegments`, `AddItem`, `AddItemParts`), each proved against a specification function. The class's `ToString` and `Parse` call them.
- CspRoundTrip.RoundTrip holds only for `Representable` directives. Those are the directives both components know, each with at least one value; values must be plain (no space, no `;`, no trailing white space), and quoted values must come from the parser's own list. Outside that set the parser drops, splits or rejects what the builder wrote, and that is the source's behaviour.
- A lone `'` is not a source-list item for the builder: `^'.*'$` needs two characters. The parser treats it as quoted and drops it. The round trip excludes it, because `'` is in no parser list.
- CspRoundTrip.RenderedBody: requires every value to be non-empty and to end in a character `trim` keeps. Otherwise the `trim` of a segment, or the final one, cuts into the values, and the rendering is not the plain lines; those renderings are not characterised.
- `testFromCspString` (tests/CspTest.php:25-29) depends on `fromCspString`, which is left out.
