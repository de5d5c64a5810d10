/** The header tokenizer: a policy string, with or without its header name, split
    on ";" and " " into directives and the values each keeps. It has its own,
    smaller table of directives and never consults the policy builder. */
module CspParser {
  import opened Wrappers
  import opened PhpStrings
  import opened PhpArrays
  import opened CspGrammar

  const HeaderPrefix := "content-security-policy"
  const ReportOnlySuffix := "-report-only"

  /** The array `parse()` returns: `report => [report-only => true]` when the header
      was the report-only one, and the values kept under each directive. */
  datatype ParsedPolicy = ParsedPolicy(reportOnly: bool, directives: map<string, seq<string>>)

  /** What the header pattern captured: the report-only group, and the text after the colon. */
  datatype HeaderSplit = HeaderSplit(reportOnly: bool, value: string)

  /** `s` starts with `p` when letter case is ignored (`p` is lower case). */
  predicate StartsWithIgnoringCase(s: string, p: string) {
    |p| <= |s| && Lower(s[..|p|]) == p
  }

  /** The tail of the pattern, `\s*:(.*)`: white space, a colon, and the rest. */
  function ColonAfterSpaces(s: string): (r: Option<string>)
    ensures r.Some? ==> |r.value| < |s| && s[|s| - |r.value| - 1] == ':' && r.value == s[|s| - |r.value|..]
    ensures r.Some? ==> forall i :: 0 <= i < |s| - |r.value| - 1 ==> IsPcreSpace(s[i])
  {
    if s == [] then None
    else if IsPcreSpace(s[0]) then ColonAfterSpaces(s[1..])
    else if s[0] == ':' then Some(s[1..])
    else None
  }

  /** `preg_match('/^content-security-policy(-report-only)?\s*:(.*)/i', …)`: the
      optional group is tried first and given up when the colon does not follow it. */
  function HeaderMatch(t: string): (r: Option<HeaderSplit>)
    ensures r.Some? ==> StartsWithIgnoringCase(t, HeaderPrefix)
    ensures r.Some? && r.value.reportOnly ==> StartsWithIgnoringCase(t[|HeaderPrefix|..], ReportOnlySuffix)
  {
    if !StartsWithIgnoringCase(t, HeaderPrefix) then None
    else
      var rest := t[|HeaderPrefix|..];
      if StartsWithIgnoringCase(rest, ReportOnlySuffix) && ColonAfterSpaces(rest[|ReportOnlySuffix|..]).Some? then
        Some(HeaderSplit(true, ColonAfterSpaces(rest[|ReportOnlySuffix|..]).value))
      else
        match ColonAfterSpaces(rest)
        case Some(v) => Some(HeaderSplit(false, v))
        case None => None
  }

  /** The `switch` of `parse()`, case by case, with what its fall-through has
      collected at the `break`: the quoted values a directive keeps, `[]` for the
      report directives and the empty item. */
  const ParserTable: map<string, seq<string>> := map[
    "script-src" := ["'unsafe-eval'", "'unsafe-inline'", "'none'", "'self'"],
    "style-src" := ["'unsafe-inline'", "'none'", "'self'"],
    "default-src" := ["'none'", "'self'"],
    "img-src" := ["'none'", "'self'"],
    "font-src" := ["'none'", "'self'"],
    "connect-src" := ["'none'", "'self'"],
    "media-src" := ["'none'", "'self'"],
    "object-src" := ["'none'", "'self'"],
    "frame-src" := ["'none'", "'self'"],
    "report-uri" := [],
    "report-to" := [],
    "" := []
  ]

  /** The predefined list of a directive, or none for a directive the parser does not know. */
  function Predefined(d: string): Option<seq<string>> {
    if d in ParserTable then Some(ParserTable[d]) else None
  }

  /** `substr($part, 0, 1) == "'" && substr($part, -1, 1) == "'"` (a lone `'` counts). */
  predicate IsQuotedPart(p: string) {
    |p| > 0 && p[0] == '\'' && p[|p| - 1] == '\''
  }

  /** One part: a quoted one is kept only when it is predefined for the directive,
      any other one always. */
  function AddPart(values: map<string, seq<string>>, d: string, predefined: seq<string>, p: string): map<string, seq<string>> {
    if IsQuotedPart(p) && p !in predefined then values else StoreValue(values, d, p)
  }

  /** The inner `foreach` over the parts of one item. */
  function AddParts(values: map<string, seq<string>>, d: string, predefined: seq<string>, parts: seq<string>): map<string, seq<string>>
    decreases parts
  {
    if parts == [] then values
    else AddParts(AddPart(values, d, predefined, parts[0]), d, predefined, parts[1..])
  }

  /** The directive an item names: its first space-separated word, in lower case. */
  function ItemDirective(item: string): string {
    Lower(Split(Trim(item), ' ')[0])
  }

  /** One `;`-separated item, or the exception for a directive the parser does not know. */
  function ParseItem(values: map<string, seq<string>>, item: string): Result<map<string, seq<string>>, CspError> {
    var parts := Split(Trim(item), ' ');
    var d := Lower(parts[0]);
    match Predefined(d)
    case None => Failure(InvalidArgument("Unknown directive \"" + d + "'"))
    case Some(predefined) => Success(AddParts(values, d, predefined, parts[1..]))
  }

  /** The outer `foreach`: the items in order, stopping at the first exception. */
  function ParseItems(values: map<string, seq<string>>, items: seq<string>): Result<map<string, seq<string>>, CspError>
    decreases items
  {
    if items == [] then Success(values)
    else
      match ParseItem(values, items[0])
      case Failure(e) => Failure(e)
      case Success(m) => ParseItems(m, items[1..])
  }

  /** `parse($cspString)` */
  function ParseHeader(s: string): Result<ParsedPolicy, CspError> {
    var t := Trim(s);
    var h := HeaderMatch(t);
    var body := if h.Some? then Trim(h.value.value) else t;
    match ParseItems(map[], Split(body, ';'))
    case Failure(e) => Failure(e)
    case Success(m) => Success(ParsedPolicy(h.Some? && h.value.reportOnly, m))
  }

  /** The predefined list, built as the `switch` builds it: each case appends its
      entries and falls through to the next until a `break`. */
  method PredefinedFor(directive: string) returns (r: Option<seq<string>>)
    ensures r == Predefined(directive)
  {
    var predefined: seq<string> := [];
    var known := false;
    if directive == "script-src" {
      predefined := predefined + ["'unsafe-eval'"];
    }
    if directive == "script-src" || directive == "style-src" {
      predefined := predefined + ["'unsafe-inline'"];
    }
    if directive == "script-src" || directive == "style-src" || directive == "default-src"
       || directive == "img-src" || directive == "font-src" || directive == "connect-src"
       || directive == "media-src" || directive == "object-src" || directive == "frame-src" {
      predefined := predefined + ["'none'", "'self'"];
      known := true;
    } else if directive == "report-uri" || directive == "report-to" || directive == "" {
      known := true;
    }
    assert directive == "script-src" ==> predefined == ["'unsafe-eval'", "'unsafe-inline'", "'none'", "'self'"];
    assert directive == "style-src" ==> predefined == ["'unsafe-inline'", "'none'", "'self'"];
    assert !known ==> Predefined(directive).None?;
    assert known && directive != "script-src" && directive != "style-src" ==> predefined == [] || predefined == ["'none'", "'self'"];
    r := if known then Some(predefined) else None;
  }

  /** The inner `foreach` of `parse()`: the parts of one item, each kept or dropped. */
  method AddItemParts(values: map<string, seq<string>>, directive: string, predefined: seq<string>, parts: seq<string>)
    returns (r: map<string, seq<string>>)
    ensures r == AddParts(values, directive, predefined, parts)
  {
    r := values;
    for j := 0 to |parts|
      invariant AddParts(r, directive, predefined, parts[j..]) == AddParts(values, directive, predefined, parts)
    {
      assert parts[j..][1..] == parts[j + 1..];
      var part := parts[j];
      if IsQuotedPart(part) {
        if part in predefined {
          r := StoreValue(r, directive, part);
        }
      } else {
        r := StoreValue(r, directive, part);
      }
    }
    assert parts[|parts|..] == [];
  }

  /** The body of the outer `foreach` of `parse()`: one item, or the exception for
      a directive the `switch` does not know. */
  method AddItem(values: map<string, seq<string>>, item: string) returns (r: Result<map<string, seq<string>>, CspError>)
    ensures r == ParseItem(values, item)
  {
    var parts := Split(Trim(item), ' ');
    var directive := Lower(parts[0]);
    var predefined := PredefinedFor(directive);
    if predefined.None? {
      return Failure(InvalidArgument("Unknown directive \"" + directive + "'"));
    }
    var m := AddItemParts(values, directive, predefined.value, parts[1..]);
    return Success(m);
  }

  /** `parse($cspString)`: the header prefix, then the items in order. */
  method Parse(cspString: string) returns (r: Result<ParsedPolicy, CspError>)
    ensures r == ParseHeader(cspString)
  {
    var s := Trim(cspString);
    var reportOnly := false;
    var matches := HeaderMatch(s);
    if matches.Some? {
      reportOnly := matches.value.reportOnly;
      s := Trim(matches.value.value);
    }
    var items := Split(s, ';');
    var values: map<string, seq<string>> := map[];
    for i := 0 to |items|
      invariant ParseItems(values, items[i..]) == ParseItems(map[], items)
    {
      ParseItemsStep(values, items[i..]);
      assert items[i..][1..] == items[i + 1..];
      var next := AddItem(values, items[i]);
      if next.Failure? {
        return Failure(next.error);
      }
      values := next.value;
    }
    assert items[|items|..] == [];
    return Success(ParsedPolicy(reportOnly, values));
  }

  // ---------------------------------------------------------------------------
  // Lemmas

  // ---------------------------------------------------------------------------
  // The header prefix

  /** When the header pattern matches, the input is a header name in any letter case,
      `-report-only` in any letter case exactly when the flag is set, white space,
      a colon, and then the captured value. */
  lemma HeaderMatchShape(t: string)
    requires HeaderMatch(t).Some?
    ensures var h := HeaderMatch(t).value;
      var n := |HeaderPrefix| + (if h.reportOnly then |ReportOnlySuffix| else 0);
      && n + 1 + |h.value| <= |t|
      && Lower(t[..|HeaderPrefix|]) == HeaderPrefix
      && (h.reportOnly ==> Lower(t[|HeaderPrefix|..n]) == ReportOnlySuffix)
      && (forall i :: n <= i < |t| - |h.value| - 1 ==> IsPcreSpace(t[i]))
      && t[|t| - |h.value| - 1] == ':'
      && t[|t| - |h.value|..] == h.value
  {
    var h := HeaderMatch(t).value;
    var rest := t[|HeaderPrefix|..];
    if h.reportOnly {
      assert rest[..|ReportOnlySuffix|] == t[|HeaderPrefix|..|HeaderPrefix| + |ReportOnlySuffix|];
      var tail := rest[|ReportOnlySuffix|..];
      assert tail == t[|HeaderPrefix| + |ReportOnlySuffix|..];
    }
  }

  /** White space and a colon, then the rest: the tail of the pattern captures the rest. */
  lemma {:induction false} ColonAfterSpacesAccepts(ws: string, v: string)
    requires forall i :: 0 <= i < |ws| ==> IsPcreSpace(ws[i])
    ensures ColonAfterSpaces(ws + ":" + v) == Some(v)
  {
    if ws != [] {
      assert (ws + ":" + v)[1..] == ws[1..] + ":" + v;
      ColonAfterSpacesAccepts(ws[1..], v);
    } else {
      assert ws + ":" + v == [':'] + v;
    }
  }

  /** Every spelling of the header name, followed by any white space and a colon,
      is recognised, without the report-only flag. */
  lemma HeaderMatchAccepts(name: string, ws: string, v: string)
    requires Lower(name) == HeaderPrefix
    requires forall i :: 0 <= i < |ws| ==> IsPcreSpace(ws[i])
    ensures HeaderMatch(name + ws + ":" + v) == Some(HeaderSplit(false, v))
  {
    var t := name + ws + ":" + v;
    assert t[..|HeaderPrefix|] == name;
    var rest := t[|HeaderPrefix|..];
    assert rest == ws + ":" + v;
    ColonAfterSpacesAccepts(ws, v);
    assert rest[0] == ':' || IsPcreSpace(rest[0]);
    assert !StartsWithIgnoringCase(rest, ReportOnlySuffix) by {
      if |ReportOnlySuffix| <= |rest| {
        assert Lower(rest[..|ReportOnlySuffix|])[0] == LowerChar(rest[0]);
      }
    }
  }

  /** Every spelling of the report-only header name, followed by any white space and
      a colon, is recognised, with the report-only flag. */
  lemma HeaderMatchAcceptsReportOnly(name: string, suffix: string, ws: string, v: string)
    requires Lower(name) == HeaderPrefix && Lower(suffix) == ReportOnlySuffix
    requires forall i :: 0 <= i < |ws| ==> IsPcreSpace(ws[i])
    ensures HeaderMatch(name + suffix + ws + ":" + v) == Some(HeaderSplit(true, v))
  {
    var t := name + suffix + ws + ":" + v;
    assert t[..|HeaderPrefix|] == name;
    var rest := t[|HeaderPrefix|..];
    assert rest == suffix + (ws + ":" + v);
    assert rest[..|ReportOnlySuffix|] == suffix;
    assert rest[|ReportOnlySuffix|..] == ws + ":" + v;
    ColonAfterSpacesAccepts(ws, v);
  }

  // ---------------------------------------------------------------------------
  // Items

  /** An item of white space only (in particular an empty one) adds nothing and
      does not throw. */
  lemma BlankItem(values: map<string, seq<string>>, item: string)
    requires forall i :: 0 <= i < |item| ==> IsTrimSpace(item[i])
    ensures ParseItem(values, item) == Success(values)
  {
    assert Trim(item) == [];
    assert Split([], ' ') == [""];
    assert Lower("") == "";
  }

  /** Empty or blank input gives the empty array. */
  lemma ParseBlank(s: string)
    requires forall i :: 0 <= i < |s| ==> IsTrimSpace(s[i])
    ensures ParseHeader(s) == Success(ParsedPolicy(false, map[]))
  {
    assert Trim(s) == [];
    ParseTrimmedEmpty(s);
  }

  /** Input that trims to nothing gives the empty array. */
  lemma ParseTrimmedEmpty(s: string)
    requires Trim(s) == []
    ensures ParseHeader(s) == Success(ParsedPolicy(false, map[]))
  {
    assert HeaderMatch([]) == None;
    assert Split([], ';') == [""];
    EmptyItemOnly();
  }

  /** The items of an empty body, that is the single empty item, give the empty array. */
  lemma EmptyItemOnly()
    ensures ParseItems(map[], [""]) == Success(map[])
  {
    BlankItem(map[], "");
    assert [""][1..] == [];
  }

  /** An item throws exactly when the parser does not know its directive, and then
      with the message naming the lower-cased directive. */
  lemma UnknownDirective(values: map<string, seq<string>>, item: string)
    ensures ParseItem(values, item).Failure? <==> Predefined(ItemDirective(item)).None?
    ensures ParseItem(values, item).Failure? ==>
      ParseItem(values, item).error == InvalidArgument("Unknown directive \"" + ItemDirective(item) + "'")
  {
  }

  /** The whole loop throws exactly when one of the items names an unknown directive. */
  lemma ParseItemsFails(values: map<string, seq<string>>, items: seq<string>)
    ensures ParseItems(values, items).Failure? <==>
      exists k :: 0 <= k < |items| && Predefined(ItemDirective(items[k])).None?
  {
    if ParseItems(values, items).Failure? {
      var k := ParseItemsFailureCause(values, items);
    }
    if exists k :: 0 <= k < |items| && Predefined(ItemDirective(items[k])).None? {
      var k :| 0 <= k < |items| && Predefined(ItemDirective(items[k])).None?;
      ParseItemsFailsAt(values, items, k);
    }
  }

  /** A failing loop has an item with an unknown directive. */
  lemma {:induction false} ParseItemsFailureCause(values: map<string, seq<string>>, items: seq<string>) returns (k: nat)
    decreases items
    requires ParseItems(values, items).Failure?
    ensures k < |items| && Predefined(ItemDirective(items[k])).None?
  {
    if Predefined(ItemDirective(items[0])).None? {
      k := 0;
    } else {
      UnknownDirective(values, items[0]);
      var next := ParseItemsTail(values, items);
      var k' := ParseItemsFailureCause(next, items[1..]);
      k := k' + 1;
      assert items[1..][k'] == items[k];
    }
  }

  /** The loop's first step: an exception from the first item ends it, otherwise it
      goes on with the rest. */
  lemma ParseItemsStep(values: map<string, seq<string>>, items: seq<string>)
    requires items != []
    ensures ParseItem(values, items[0]).Failure? ==>
      ParseItems(values, items) == Failure(ParseItem(values, items[0]).error)
    ensures ParseItem(values, items[0]).Success? ==>
      ParseItems(values, items) == ParseItems(ParseItem(values, items[0]).value, items[1..])
  {
  }

  /** After a first item that succeeds, the loop goes on with the rest. */
  lemma ParseItemsTail(values: map<string, seq<string>>, items: seq<string>) returns (next: map<string, seq<string>>)
    requires items != [] && ParseItem(values, items[0]).Success?
    ensures next == ParseItem(values, items[0]).value
    ensures ParseItems(values, items) == ParseItems(next, items[1..])
  {
    next := ParseItem(values, items[0]).value;
  }

  /** An item with an unknown directive makes the loop fail. */
  lemma {:induction false} ParseItemsFailsAt(values: map<string, seq<string>>, items: seq<string>, k: nat)
    decreases items
    requires k < |items| && Predefined(ItemDirective(items[k])).None?
    ensures ParseItems(values, items).Failure?
  {
    var first := ParseItem(values, items[0]);
    if k == 0 {
      UnknownDirective(values, items[0]);
    } else if first.Success? {
      assert items[1..][k - 1] == items[k];
      ParseItemsFailsAt(first.value, items[1..], k - 1);
    }
  }

  /** The newer directives of the policy builder are unknown to the parser. */
  lemma NewerDirectivesUnknown()
    ensures Predefined("sandbox").None? && Predefined("worker-src").None?
    ensures Predefined("base-uri").None? && Predefined("upgrade-insecure-requests").None?
  {
  }

  // ---------------------------------------------------------------------------
  // Values

  /** The parts only ever touch the entry of their own directive. */
  lemma {:induction false} AddPartsFrame(values: map<string, seq<string>>, d: string, predefined: seq<string>, parts: seq<string>)
    decreases parts
    ensures var r := AddParts(values, d, predefined, parts);
      forall k :: k != d ==> (k in r <==> k in values) && (k in values ==> r[k] == values[k])
  {
    if parts != [] {
      AddPartsFrame(AddPart(values, d, predefined, parts[0]), d, predefined, parts[1..]);
    }
  }

  /** A part is kept when it is not quoted or is predefined for the directive; the
      entry holds exactly the values it had and the kept parts, each once, with the
      old values in front. */
  lemma AddPartsValues(values: map<string, seq<string>>, d: string, predefined: seq<string>, parts: seq<string>)
    requires NoDup(Lookup(values, d))
    ensures var r := Lookup(AddParts(values, d, predefined, parts), d);
      && NoDup(r)
      && (forall x :: x in r <==> x in Lookup(values, d) || (x in parts && (!IsQuotedPart(x) || x in predefined)))
      && |Lookup(values, d)| <= |r| && r[..|Lookup(values, d)|] == Lookup(values, d)
  {
    AddPartsKept(values, d, predefined, parts);
    AddPartsOrder(values, d, predefined, parts);
  }

  lemma {:induction false} AddPartsKept(values: map<string, seq<string>>, d: string, predefined: seq<string>, parts: seq<string>)
    decreases parts
    requires NoDup(Lookup(values, d))
    ensures var r := Lookup(AddParts(values, d, predefined, parts), d);
      && NoDup(r)
      && (forall x :: x in r <==> x in Lookup(values, d) || (x in parts && (!IsQuotedPart(x) || x in predefined)))
  {
    if parts != [] {
      var next := AddPart(values, d, predefined, parts[0]);
      AddPartsKept(next, d, predefined, parts[1..]);
      assert parts == [parts[0]] + parts[1..];
    }
  }

  lemma {:induction false} AddPartsOrder(values: map<string, seq<string>>, d: string, predefined: seq<string>, parts: seq<string>)
    decreases parts
    ensures var r := Lookup(AddParts(values, d, predefined, parts), d);
      |Lookup(values, d)| <= |r| && r[..|Lookup(values, d)|] == Lookup(values, d)
  {
    if parts != [] {
      var next := AddPart(values, d, predefined, parts[0]);
      AddPartsOrder(next, d, predefined, parts[1..]);
      var r := Lookup(AddParts(values, d, predefined, parts), d);
      var mid := Lookup(next, d);
      assert mid[..|Lookup(values, d)|] == Lookup(values, d);
      assert r[..|Lookup(values, d)|] == mid[..|Lookup(values, d)|];
    }
  }

  /** When every part is kept and new, the parts are appended to the entry in order. */
  lemma {:induction false} AddPartsAppend(values: map<string, seq<string>>, d: string, predefined: seq<string>, parts: seq<string>)
    decreases parts
    requires NoDup(Lookup(values, d) + parts)
    requires forall k :: 0 <= k < |parts| && IsQuotedPart(parts[k]) ==> parts[k] in predefined
    requires d in values || parts != []
    ensures AddParts(values, d, predefined, parts) == values[d := Lookup(values, d) + parts]
  {
    if parts == [] {
      assert Lookup(values, d) + parts == Lookup(values, d);
    } else {
      var next := AddPartStep(values, d, predefined, parts);
      var rest := parts[1..];
      forall k | 0 <= k < |rest| && IsQuotedPart(rest[k]) ensures rest[k] in predefined {
        assert rest[k] == parts[k + 1];
      }
      assert AddParts(values, d, predefined, parts) == AddParts(next, d, predefined, rest);
      AddPartsAppend(next, d, predefined, rest);
      UpdateTwice(values, d, Lookup(values, d) + [parts[0]], Lookup(values, d) + parts);
    }
  }

  /** A second update of a key overrides the first. */
  lemma UpdateTwice<K, V>(m: map<K, V>, k: K, a: V, b: V)
    ensures m[k := a][k := b] == m[k := b]
  {
  }

  /** The first of those parts goes to the end of the entry. */
  lemma AddPartStep(values: map<string, seq<string>>, d: string, predefined: seq<string>, parts: seq<string>)
    returns (next: map<string, seq<string>>)
    requires NoDup(Lookup(values, d) + parts) && parts != []
    requires IsQuotedPart(parts[0]) ==> parts[0] in predefined
    ensures next == AddPart(values, d, predefined, parts[0])
    ensures next == values[d := Lookup(values, d) + [parts[0]]]
    ensures Lookup(next, d) + parts[1..] == Lookup(values, d) + parts
  {
    var held := Lookup(values, d);
    NoDupAppend(held, parts);
    next := AddPart(values, d, predefined, parts[0]);
    assert (held + [parts[0]]) + parts[1..] == held + parts;
  }

  /** The entry of a directive is created exactly when a part is kept for it. */
  lemma {:induction false} AddPartsCreates(values: map<string, seq<string>>, d: string, predefined: seq<string>, parts: seq<string>)
    decreases parts
    ensures d in AddParts(values, d, predefined, parts) <==>
      d in values || exists x :: x in parts && (!IsQuotedPart(x) || x in predefined)
  {
    if parts != [] {
      AddPartsCreates(AddPart(values, d, predefined, parts[0]), d, predefined, parts[1..]);
      assert parts == [parts[0]] + parts[1..];
    }
  }

  /** A directive with nothing after it adds nothing: no entry is created for it. */
  lemma BareDirective(values: map<string, seq<string>>, item: string)
    requires ' ' !in Trim(item)
    requires Predefined(Lower(Trim(item))).Some?
    ensures ParseItem(values, item) == Success(values)
  {
    SplitNoSep(Trim(item), ' ');
  }

  /** Two spaces in a row separate an empty part, and the empty part is stored. */
  lemma DoubleSpaceStoresEmpty(values: map<string, seq<string>>, d: string, v: string)
    requires d != [] && !IsTrimSpace(d[0]) && ' ' !in d
    requires v != [] && !IsTrimSpace(v[|v| - 1]) && ' ' !in v && !IsQuotedPart(v)
    requires Predefined(Lower(d)).Some? && NoDup(Lookup(values, Lower(d)))
    ensures ParseItem(values, d + "  " + v).Success?
    ensures var m := ParseItem(values, d + "  " + v).value;
      Lower(d) in m && "" in m[Lower(d)] && v in m[Lower(d)]
  {
    var item := d + "  " + v;
    TrimNoop(item);
    SplitDoubleSpace(d, v);
    EmptyPartStored(values, item, d, v);
  }

  /** The item's words are `d`, an empty word and `v`: both of the latter are stored. */
  lemma EmptyPartStored(values: map<string, seq<string>>, item: string, d: string, v: string)
    requires Split(Trim(item), ' ') == [d, "", v] && !IsQuotedPart(v)
    requires Predefined(Lower(d)).Some? && NoDup(Lookup(values, Lower(d)))
    ensures ParseItem(values, item).Success?
    ensures var m := ParseItem(values, item).value;
      Lower(d) in m && "" in m[Lower(d)] && v in m[Lower(d)]
  {
    assert [d, "", v] == [d] + ["", v];
    ParseItemParts(values, item, d, ["", v]);
    EmptyPartKept(values, Lower(d), Predefined(Lower(d)).value, v);
  }

  /** The parts `""` and an unquoted `v` are both kept. */
  lemma EmptyPartKept(values: map<string, seq<string>>, n: string, pre: seq<string>, v: string)
    requires !IsQuotedPart(v) && NoDup(Lookup(values, n))
    ensures var m := AddParts(values, n, pre, ["", v]);
      n in m && "" in m[n] && v in m[n]
  {
    var rest := ["", v];
    forall k | 0 <= k < |rest| ensures !IsQuotedPart(rest[k]) {
      assert rest[k] == "" || rest[k] == v;
    }
    KeptParts(values, n, pre, rest);
    assert rest[0] == "" && rest[1] == v;
  }

  /** An item whose words are a known directive and then `rest` stores `rest`
      under the lower-cased directive. */
  lemma ParseItemParts(values: map<string, seq<string>>, item: string, d: string, rest: seq<string>)
    requires Split(Trim(item), ' ') == [d] + rest
    requires Predefined(Lower(d)).Some?
    ensures ParseItem(values, item) == Success(AddParts(values, Lower(d), Predefined(Lower(d)).value, rest))
  {
    assert ([d] + rest)[1..] == rest;
  }

  /** `explode(" ", "a  b")` is `["a", "", "b"]`. */
  lemma SplitDoubleSpace(a: string, b: string)
    requires ' ' !in a && ' ' !in b
    ensures Split(a + "  " + b, ' ') == [a, "", b]
  {
    assert a + "  " + b == a + [' '] + ([] + [' '] + b);
    SplitConcat(a, [] + [' '] + b, ' ');
    SplitConcat([], b, ' ');
    SplitNoSep(a, ' ');
    SplitNoSep(b, ' ');
  }

  /** Parts that are not quoted all end up under their directive. */
  lemma KeptParts(values: map<string, seq<string>>, d: string, predefined: seq<string>, parts: seq<string>)
    requires NoDup(Lookup(values, d)) && parts != []
    requires forall k :: 0 <= k < |parts| ==> !IsQuotedPart(parts[k])
    ensures var m := AddParts(values, d, predefined, parts);
      d in m && forall k :: 0 <= k < |parts| ==> parts[k] in m[d]
  {
    AddPartsValues(values, d, predefined, parts);
    AddPartsCreates(values, d, predefined, parts);
    assert parts[0] in parts;
  }

  /** Every directive the parser returns holds each value once. */
  lemma {:induction false} ParseItemsNoDup(values: map<string, seq<string>>, items: seq<string>)
    decreases items
    requires forall k :: k in values ==> NoDup(values[k])
    requires ParseItems(values, items).Success?
    ensures var m := ParseItems(values, items).value; forall k :: k in m ==> NoDup(m[k])
  {
    if items != [] {
      var parts := Split(Trim(items[0]), ' ');
      var d := Lower(parts[0]);
      var pre := Predefined(d).value;
      AddPartsFrame(values, d, pre, parts[1..]);
      AddPartsValues(values, d, pre, parts[1..]);
      ParseItemsNoDup(AddParts(values, d, pre, parts[1..]), items[1..]);
    }
  }

  /** Duplicates collapse: in what `parse()` returns, no directive holds a value twice. */
  lemma ParsedNoDup(s: string)
    requires ParseHeader(s).Success?
    ensures var p := ParseHeader(s).value; forall k :: k in p.directives ==> NoDup(p.directives[k])
  {
    var t := Trim(s);
    var h := HeaderMatch(t);
    var body := if h.Some? then Trim(h.value.value) else t;
    ParseItemsNoDup(map[], Split(body, ';'));
  }
}
