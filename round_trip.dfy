/** Reading a rendered policy back with the tokenizer. The two components share no
    code, but on the directives both know, and on values the tokenizer neither
    splits nor drops, parsing what the builder renders gives back its directives
    and values, and the report-only flag exactly when the full header was rendered. */
module CspRoundTrip {
  import opened Wrappers
  import opened PhpStrings
  import opened PhpArrays
  import opened CspGrammar
  import opened Csp
  import opened CspParser

  /** The directives of the builder that the parser's `switch` has a case for. */
  predicate ParserKnows(d: Directive) {
    Predefined(Name(d)).Some?
  }

  /** A value the tokenizer reads back as one part: not empty, without a space or a
      `;`, and not ending in white space that `trim()` would strip. */
  predicate PlainValue(v: string) {
    v != [] && ' ' !in v && ';' !in v && !IsTrimSpace(v[|v| - 1])
  }

  /** An entry the parser reads back: a directive it knows, at least one value (a bare
      directive creates no entry), no value twice, and quoted values only when the
      parser keeps them. */
  predicate RepresentableEntry(d: Directive, vs: seq<string>) {
    && ParserKnows(d) && vs != [] && NoDup(vs)
    && forall k :: 0 <= k < |vs| ==> PlainValue(vs[k]) && (IsQuotedPart(vs[k]) ==> vs[k] in Predefined(Name(d)).value)
  }

  ghost predicate Representable(ds: Directives) {
    forall d :: d in ds ==> RepresentableEntry(d, ds[d])
  }

  /** The parser knows eleven of the builder's directives: those of its `switch`. */
  lemma ParserKnowsExactly(d: Directive)
    ensures ParserKnows(d) <==>
      d in {DefaultSrc, ScriptSrc, StyleSrc, ImgSrc, FontSrc, ConnectSrc, MediaSrc, ObjectSrc, FrameSrc, ReportUri, ReportTo}
  {
  }

  // ---------------------------------------------------------------------------
  // The rendered entries, by name

  /** A directive name and its values, as the rendering spells them out. */
  type Entry = (string, seq<string>)

  /** The entries of the directives of `dirs` present in `ds`, in the order of `dirs`. */
  function Entries(ds: Directives, dirs: seq<Directive>): seq<Entry>
    decreases dirs
  {
    if dirs == [] then []
    else (if dirs[0] in ds then [(Name(dirs[0]), ds[dirs[0]])] else []) + Entries(ds, dirs[1..])
  }

  /** What the rendering loop appends for the entries: each line, then "; ". */
  function SegmentsOf(es: seq<Entry>): string
    decreases es
  {
    if es == [] then "" else Line(es[0].0, es[0].1) + "; " + SegmentsOf(es[1..])
  }

  /** The trimmed rendering: the lines, each followed by ";", separated by single spaces. */
  function Body(es: seq<Entry>): string
    requires es != []
    decreases es
  {
    if |es| == 1 then Line(es[0].0, es[0].1) + ";" else Line(es[0].0, es[0].1) + "; " + Body(es[1..])
  }

  /** What `explode(';', …)` makes of `w` followed by the body: the lines, every one
      after the first behind its space, and the empty piece after the last ";". */
  function Chunks(es: seq<Entry>, w: string): seq<string>
    decreases es
  {
    if es == [] then [""] else [w + Line(es[0].0, es[0].1)] + Chunks(es[1..], " ")
  }

  /** What the parser collects from the entries, in order. */
  function Collected(acc: map<string, seq<string>>, es: seq<Entry>): map<string, seq<string>>
    decreases es
  {
    if es == [] then acc else Collected(acc[es[0].0 := es[0].1], es[1..])
  }

  /** A name as the registry spells them: lower-case letters and hyphens, starting
      and ending with a letter. */
  predicate GoodName(n: string) {
    n != [] && 'a' <= n[0] <= 'z' && 'a' <= n[|n| - 1] <= 'z' && IsLowerWord(n)
  }

  /** Values the parser stores as they are, given the quoted values it keeps. */
  predicate KeptValues(vs: seq<string>, pre: seq<string>) {
    && vs != [] && NoDup(vs)
    && forall k :: 0 <= k < |vs| ==> PlainValue(vs[k]) && (IsQuotedPart(vs[k]) ==> vs[k] in pre)
  }

  /** An entry the parser reads back into itself. */
  predicate GoodEntry(e: Entry) {
    GoodName(e.0) && Predefined(e.0).Some? && KeptValues(e.1, Predefined(e.0).value)
  }

  /** Distinct names, none of them already collected. */
  predicate FreshNames(acc: map<string, seq<string>>, es: seq<Entry>) {
    && (forall k :: 0 <= k < |es| ==> es[k].0 !in acc)
    && (forall i, j :: 0 <= i < j < |es| ==> es[i].0 != es[j].0)
  }

  // ---------------------------------------------------------------------------
  // From directives to entries (the only lemmas that look at the names)

  /** The segment `__toString` appends for a directive is its entry's line and "; ". */
  lemma SegmentIsLine(d: Directive, vs: seq<string>)
    requires EndsSolid(vs)
    ensures Segment(d, vs) == Line(Name(d), vs) + "; "
  {
    NameShape(d);
    TrimLine(Name(d), vs);
  }

  /** A representable entry of the builder is a good entry for the parser. */
  lemma EntryGood(d: Directive, vs: seq<string>)
    requires RepresentableEntry(d, vs)
    ensures GoodEntry((Name(d), vs))
  {
    NameShape(d);
  }

  /** The rendering loop, entry by entry. */
  lemma {:induction false} SegmentsEntries(ds: Directives, dirs: seq<Directive>)
    decreases dirs
    requires forall d :: d in ds ==> EndsSolid(ds[d])
    ensures Segments(ds, dirs) == SegmentsOf(Entries(ds, dirs))
  {
    if dirs != [] {
      SegmentsEntries(ds, dirs[1..]);
      var rest := Entries(ds, dirs[1..]);
      if dirs[0] in ds {
        var e := (Name(dirs[0]), ds[dirs[0]]);
        SegmentIsLine(dirs[0], ds[dirs[0]]);
        assert Entries(ds, dirs) == [e] + rest;
        assert ([e] + rest)[1..] == rest;
      } else {
        assert Entries(ds, dirs) == rest;
      }
    }
  }

  /** Every entry of representable directives is good. */
  lemma {:induction false} EntriesGood(ds: Directives, dirs: seq<Directive>)
    decreases dirs
    requires Representable(ds)
    ensures forall k :: 0 <= k < |Entries(ds, dirs)| ==> GoodEntry(Entries(ds, dirs)[k])
  {
    if dirs != [] {
      EntriesGood(ds, dirs[1..]);
      var rest := Entries(ds, dirs[1..]);
      if dirs[0] in ds {
        var e := (Name(dirs[0]), ds[dirs[0]]);
        EntryGood(dirs[0], ds[dirs[0]]);
        assert Entries(ds, dirs) == [e] + rest;
      } else {
        assert Entries(ds, dirs) == rest;
      }
    }
  }

  /** Each entry names a directive of `dirs` present in `ds`, and holds its values. */
  lemma {:induction false} EntriesDecode(ds: Directives, dirs: seq<Directive>)
    decreases dirs
    ensures forall k :: 0 <= k < |Entries(ds, dirs)| ==>
      Decodes(ds, Entries(ds, dirs)[k].0, Entries(ds, dirs)[k].1) && DecodeName(Entries(ds, dirs)[k].0).value in dirs
  {
    if dirs != [] {
      EntriesDecode(ds, dirs[1..]);
      var rest := Entries(ds, dirs[1..]);
      if dirs[0] in ds {
        DecodeNameInverse(dirs[0]);
        assert Entries(ds, dirs) == [(Name(dirs[0]), ds[dirs[0]])] + rest;
      } else {
        assert Entries(ds, dirs) == rest;
      }
    }
  }

  /** A directive present in `ds` and listed in `dirs` has an entry. */
  lemma {:induction false} EntriesCover(ds: Directives, dirs: seq<Directive>, d: Directive)
    decreases dirs
    requires d in ds && d in dirs
    ensures exists k :: 0 <= k < |Entries(ds, dirs)| && Entries(ds, dirs)[k].0 == Name(d)
  {
    var rest := Entries(ds, dirs[1..]);
    if dirs[0] == d {
      assert Entries(ds, dirs)[0].0 == Name(d);
    } else {
      EntriesCover(ds, dirs[1..], d);
      var k :| 0 <= k < |rest| && rest[k].0 == Name(d);
      if dirs[0] in ds {
        assert Entries(ds, dirs) == [(Name(dirs[0]), ds[dirs[0]])] + rest;
        assert Entries(ds, dirs)[k + 1].0 == Name(d);
      } else {
        assert Entries(ds, dirs) == rest;
      }
    }
  }

  /** Registry order repeats no directive, so no name occurs twice among the entries. */
  lemma EntriesDistinct(ds: Directives, dirs: seq<Directive>)
    requires NoDup(dirs)
    ensures FreshNames(map[], Entries(ds, dirs))
  {
    var es := Entries(ds, dirs);
    EntriesDecode(ds, dirs);
    forall i, j | 0 <= i < j < |es| ensures es[i].0 != es[j].0 {
      EntriesOrdered(ds, dirs, i, j);
    }
  }

  /** Entries come in the order of `dirs`. */
  lemma {:induction false} EntriesOrdered(ds: Directives, dirs: seq<Directive>, i: int, j: int)
    decreases dirs
    requires NoDup(dirs) && 0 <= i < j < |Entries(ds, dirs)|
    ensures Entries(ds, dirs)[i].0 != Entries(ds, dirs)[j].0
  {
    var rest := Entries(ds, dirs[1..]);
    assert NoDup(dirs[1..]);
    if dirs[0] in ds {
      assert Entries(ds, dirs) == [(Name(dirs[0]), ds[dirs[0]])] + rest;
      if i == 0 {
        EntriesDecode(ds, dirs[1..]);
        DecodeNameInverse(dirs[0]);
        assert dirs[0] !in dirs[1..] by {
          forall k | 0 <= k < |dirs| - 1 ensures dirs[1..][k] != dirs[0] {
            assert dirs[1..][k] == dirs[k + 1];
          }
        }
        assert rest[j - 1] == Entries(ds, dirs)[j];
      } else {
        EntriesOrdered(ds, dirs[1..], i - 1, j - 1);
      }
    } else {
      assert Entries(ds, dirs) == rest;
      EntriesOrdered(ds, dirs[1..], i, j);
    }
  }

  // ---------------------------------------------------------------------------
  // The rendering, as the tokenizer sees it

  /** The lines appended by the loop are the body and one trailing space. */
  lemma {:induction false} SegmentsOfBody(es: seq<Entry>)
    requires es != []
    decreases es
    ensures SegmentsOf(es) == Body(es) + " "
  {
    if |es| > 1 {
      SegmentsOfBody(es[1..]);
    } else {
      assert SegmentsOf(es[1..]) == "";
    }
  }

  /** The body starts with the first line and ends with ";". */
  lemma {:induction false} BodyShape(es: seq<Entry>)
    requires es != []
    decreases es
    ensures |Line(es[0].0, es[0].1)| < |Body(es)| && Body(es)[..|Line(es[0].0, es[0].1)|] == Line(es[0].0, es[0].1)
    ensures Body(es)[|Body(es)| - 1] == ';'
  {
    if |es| > 1 {
      BodyShape(es[1..]);
    }
  }

  /** `trim()` of the appended lines is the body. */
  lemma TrimmedBody(es: seq<Entry>)
    requires es != [] && GoodName(es[0].0)
    ensures Trim(SegmentsOf(es)) == Body(es)
  {
    SegmentsOfBody(es);
    BodyShape(es);
    assert Body(es)[0] == es[0].0[0];
    TrimNameSpace(Body(es));
  }

  /** Representable values end without white space. */
  lemma RepresentableEndsSolid(ds: Directives)
    requires Representable(ds)
    ensures forall d :: d in ds ==> EndsSolid(ds[d])
  {
    forall d | d in ds ensures EndsSolid(ds[d]) {
      assert RepresentableEntry(d, ds[d]);
    }
  }

  /** In value-only mode the rendering is the body of the entries, or nothing at all:
      for every policy whose values end without white space, including directives
      without values, `sandbox`, `upgrade-insecure-requests` and the directives the
      parser does not know. */
  lemma RenderedBody(ds: Directives, reportOnly: bool)
    requires forall d :: d in ds ==> EndsSolid(ds[d])
    ensures var es := Entries(ds, ValidDirectives);
      && (es == [] ==> Render(ds, reportOnly, OutputValueOnly) == "")
      && (es != [] ==> Render(ds, reportOnly, OutputValueOnly) == Body(es))
  {
    SegmentsEntries(ds, ValidDirectives);
    var es := Entries(ds, ValidDirectives);
    if es != [] {
      EntriesDecode(ds, ValidDirectives);
      NameShape(DecodeName(es[0].0).value);
      TrimmedBody(es);
    }
  }

  /** A registry name holds neither a space nor a ";". */
  lemma NameWord(n: string)
    requires GoodName(n)
    ensures ' ' !in n && ';' !in n
  {
    forall i | 0 <= i < |n| ensures n[i] != ' ' && n[i] != ';' {
      assert n[i] == '-' || 'a' <= n[i] <= 'z';
    }
  }

  /** `strtolower()` leaves a registry name alone. */
  lemma NameLower(n: string)
    requires GoodName(n)
    ensures Lower(n) == n
  {
    forall i | 0 <= i < |n| ensures !IsUpper(n[i]) {
      assert n[i] == '-' || 'a' <= n[i] <= 'z';
    }
    LowerNoop(n);
  }

  /** Plain values joined by spaces hold no ";" and do not end in white space. */
  lemma PlainJoin(vs: seq<string>)
    requires vs != [] && forall k :: 0 <= k < |vs| ==> PlainValue(vs[k])
    ensures ';' !in Join(' ', vs)
    ensures Join(' ', vs) != [] && !IsTrimSpace(Join(' ', vs)[|Join(' ', vs)| - 1])
  {
    assert PlainValue(vs[|vs| - 1]);
    JoinLast(' ', vs);
    forall k | 0 <= k < |vs| ensures ';' !in vs[k] {
      assert PlainValue(vs[k]);
    }
  }

  /** A word, a space and space-free words joined by spaces split back into the words. */
  lemma SplitWords(n: string, vs: seq<string>)
    requires ' ' !in n && vs != []
    requires forall k :: 0 <= k < |vs| ==> PlainValue(vs[k])
    ensures Split(n + " " + Join(' ', vs), ' ') == [n] + vs
  {
    var words := [n] + vs;
    assert words[1..] == vs;
    assert Join(' ', words) == n + " " + Join(' ', vs);
    forall k | 0 <= k < |words| ensures ' ' !in words[k] {
      if k > 0 {
        assert words[k] == vs[k - 1] && PlainValue(vs[k - 1]);
      }
    }
    SplitJoin(words, ' ');
  }

  /** A good line has no ";", and its words are the name and the values. */
  lemma GoodLine(e: Entry)
    requires GoodEntry(e)
    ensures ';' !in Line(e.0, e.1)
    ensures Split(Line(e.0, e.1), ' ') == [e.0] + e.1
    ensures Line(e.0, e.1)[0] == e.0[0]
    ensures !IsTrimSpace(Line(e.0, e.1)[|Line(e.0, e.1)| - 1])
  {
    var n := e.0;
    var vs := e.1;
    assert forall k :: 0 <= k < |vs| ==> PlainValue(vs[k]);
    assert Line(e.0, e.1) == n + " " + Join(' ', vs);
    NameWord(n);
    PlainJoin(vs);
    SplitWords(n, vs);
  }

  /** The body, behind `w`, is its first line, a ";" and the rest. */
  lemma BodyCons(es: seq<Entry>, w: string)
    requires es != []
    ensures w + Body(es) == (w + Line(es[0].0, es[0].1)) + [';'] + (if |es| == 1 then "" else " " + Body(es[1..]))
  {
    if |es| == 1 {
      Terminated(w, Line(es[0].0, es[0].1), "", false);
    } else {
      Terminated(w, Line(es[0].0, es[0].1), Body(es[1..]), true);
    }
  }

  /** Regrouping a line and its terminator around the ";". */
  lemma Terminated(w: string, line: string, rest: string, more: bool)
    ensures w + (if more then line + "; " + rest else line + ";")
      == (w + line) + [';'] + (if more then " " + rest else "")
  {
  }

  /** `explode()` cuts at the first separator. */
  lemma SplitAtFirst(head: string, tail: string, sep: char)
    requires sep !in head
    ensures Split(head + [sep] + tail, sep) == [head] + Split(tail, sep)
  {
    SplitNoSep(head, sep);
    SplitConcat(head, tail, sep);
  }

  /** `explode(';', …)` of the body gives the chunks. */
  lemma {:induction false} SplitBody(es: seq<Entry>, w: string)
    requires es != [] && ';' !in w
    requires forall k :: 0 <= k < |es| ==> ';' !in Line(es[k].0, es[k].1)
    decreases es
    ensures Split(w + Body(es), ';') == Chunks(es, w)
  {
    BodyCons(es, w);
    SplitAtFirst(w + Line(es[0].0, es[0].1), if |es| == 1 then "" else " " + Body(es[1..]), ';');
    if |es| > 1 {
      assert forall k :: 0 <= k < |es| - 1 ==> es[1..][k] == es[k + 1];
      SplitBody(es[1..], " ");
    }
  }

  // ---------------------------------------------------------------------------
  // Parsing the chunks

  /** A good line behind at most one space trims to itself and splits into its words. */
  lemma LineWords(w: string, e: Entry)
    requires w == "" || w == " "
    requires GoodEntry(e)
    ensures Trim(w + Line(e.0, e.1)) == Line(e.0, e.1)
    ensures Split(Trim(w + Line(e.0, e.1)), ' ') == [e.0] + e.1
  {
    var line := Line(e.0, e.1);
    GoodLine(e);
    if w == " " {
      TrimSpaceBefore(line);
    } else {
      assert w + line == line;
      TrimNoop(line);
    }
  }

  /** The parts of a fresh directive, each kept, become its values. */
  lemma StoreParts(acc: map<string, seq<string>>, n: string, pre: seq<string>, vs: seq<string>)
    requires n !in acc && KeptValues(vs, pre)
    ensures AddParts(acc, n, pre, vs) == acc[n := vs]
  {
    assert Lookup(acc, n) + vs == vs;
    AddPartsAppend(acc, n, pre, vs);
  }

  /** The parser reads a good line, with or without a leading space, back into its entry. */
  lemma ParseLine(acc: map<string, seq<string>>, w: string, e: Entry)
    requires w == "" || w == " "
    requires GoodEntry(e) && e.0 !in acc
    ensures ParseItem(acc, w + Line(e.0, e.1)) == Success(acc[e.0 := e.1])
  {
    LineWords(w, e);
    NameLower(e.0);
    ParseItemParts(acc, w + Line(e.0, e.1), e.0, e.1);
    StoreParts(acc, e.0, Predefined(e.0).value, e.1);
  }

  /** The outer loop over the chunks collects the entries. */
  lemma {:induction false} ParseChunks(acc: map<string, seq<string>>, es: seq<Entry>, w: string)
    decreases es
    requires forall k :: 0 <= k < |es| ==> GoodEntry(es[k])
    requires FreshNames(acc, es) && (w == "" || w == " ")
    ensures ParseItems(acc, Chunks(es, w)) == Success(Collected(acc, es))
  {
    if es == [] {
      BlankItem(acc, "");
      assert [""][1..] == [];
    } else {
      var e := es[0];
      ParseLine(acc, w, e);
      var acc' := acc[e.0 := e.1];
      assert FreshNames(acc', es[1..]) by {
        forall k | 0 <= k < |es| - 1 ensures es[1..][k].0 !in acc' {
          assert es[1..][k] == es[k + 1];
        }
        forall i, j | 0 <= i < j < |es| - 1 ensures es[1..][i].0 != es[1..][j].0 {
          assert es[1..][i] == es[i + 1] && es[1..][j] == es[j + 1];
        }
      }
      ParseChunks(acc', es[1..], " ");
      var cs := Chunks(es[1..], " ");
      assert ([w + Line(e.0, e.1)] + cs)[1..] == cs;
    }
  }

  /** `n` is the name of a directive present in `ds`, and `vs` are its values. */
  predicate Decodes(ds: Directives, n: string, vs: seq<string>) {
    DecodeName(n).Some? && DecodeName(n).value in ds && Name(DecodeName(n).value) == n && vs == ds[DecodeName(n).value]
  }

  /** What the parser collects holds, under each name, the values of the directive of that name. */
  lemma {:induction false} CollectedDecodes(acc: map<string, seq<string>>, ds: Directives, es: seq<Entry>)
    decreases es
    requires forall n :: n in acc ==> Decodes(ds, n, acc[n])
    requires forall k :: 0 <= k < |es| ==> Decodes(ds, es[k].0, es[k].1)
    ensures var m := Collected(acc, es);
      && (forall n :: n in m ==> Decodes(ds, n, m[n]))
      && (forall n :: n in acc ==> n in m)
      && (forall k :: 0 <= k < |es| ==> es[k].0 in m)
  {
    if es != [] {
      var acc' := acc[es[0].0 := es[0].1];
      assert forall k :: 0 <= k < |es| - 1 ==> es[1..][k] == es[k + 1];
      CollectedDecodes(acc', ds, es[1..]);
    }
  }

  // ---------------------------------------------------------------------------
  // The header

  /** The header names the builder writes, taken apart as the parser's pattern sees them. */
  lemma HeaderNameParts()
    ensures HeaderName == "Content-Security-Policy" + ":" + " "
    ensures ReportOnlyHeaderName == "Content-Security-Policy" + "-Report-Only" + ":" + " "
  {
  }

  lemma HeaderNameLower()
    ensures Lower("Content-Security-Policy") == HeaderPrefix
  {
  }

  lemma SuffixLower()
    ensures Lower("-Report-Only") == ReportOnlySuffix
  {
  }

  /** `trim()` of a header name, ": " and a body: only the space of an empty body goes. */
  lemma TrimHeader(head: string, body: string)
    requires head != [] && !IsTrimSpace(head[0])
    requires body == [] || (!IsTrimSpace(body[0]) && !IsTrimSpace(body[|body| - 1]))
    ensures Trim(head + ":" + " " + body) == head + "" + ":" + (if body == [] then "" else " " + body)
  {
    var s := head + ":" + " " + body;
    if body == [] {
      assert s == (head + ":") + " ";
      assert (head + ":")[0] == head[0];
      TrimNameSpace(head + ":");
    } else {
      TrimNoop(s);
    }
  }

  /** A captured value behind one space trims to the body. */
  lemma TrimCaptured(body: string)
    requires body == [] || (!IsTrimSpace(body[0]) && !IsTrimSpace(body[|body| - 1]))
    ensures Trim(if body == [] then "" else " " + body) == body
  {
    if body != [] {
      TrimSpaceBefore(body);
    }
  }

  /** A full header, read back: the pattern matches, and the captured value trims to the body. */
  lemma HeaderAccepted(name: string, body: string)
    requires Lower(name) == HeaderPrefix && name != [] && !IsTrimSpace(name[0])
    requires body == [] || (!IsTrimSpace(body[0]) && !IsTrimSpace(body[|body| - 1]))
    ensures var h := HeaderMatch(Trim(name + ":" + " " + body));
      h.Some? && !h.value.reportOnly && Trim(h.value.value) == body
  {
    var v := if body == [] then "" else " " + body;
    TrimHeader(name, body);
    TrimCaptured(body);
    HeaderMatchAccepts(name, "", v);
  }

  /** A report-only header, read back. */
  lemma ReportOnlyAccepted(name: string, suffix: string, body: string)
    requires Lower(name) == HeaderPrefix && Lower(suffix) == ReportOnlySuffix
    requires name != [] && !IsTrimSpace(name[0])
    requires body == [] || (!IsTrimSpace(body[0]) && !IsTrimSpace(body[|body| - 1]))
    ensures var h := HeaderMatch(Trim(name + suffix + ":" + " " + body));
      h.Some? && h.value.reportOnly && Trim(h.value.value) == body
  {
    var v := if body == [] then "" else " " + body;
    TrimHeader(name + suffix, body);
    TrimCaptured(body);
    HeaderMatchAcceptsReportOnly(name, suffix, "", v);
  }

  /** The header names the builder writes are recognised by the parser's pattern. */
  lemma HeaderRecognised(reportOnly: bool, body: string)
    requires body == [] || (!IsTrimSpace(body[0]) && !IsTrimSpace(body[|body| - 1]))
    ensures var t := Trim((if reportOnly then ReportOnlyHeaderName else HeaderName) + body);
      && HeaderMatch(t).Some?
      && HeaderMatch(t).value.reportOnly == reportOnly
      && Trim(HeaderMatch(t).value.value) == body
  {
    HeaderNameParts();
    HeaderNameLower();
    SuffixLower();
    if reportOnly {
      ReportOnlyAccepted("Content-Security-Policy", "-Report-Only", body);
    } else {
      HeaderAccepted("Content-Security-Policy", body);
    }
  }

  /** A name the parser knows is no spelling of the header name, nor a prefix of one. */
  lemma KnownNameNotHeader(n: string, t: string)
    requires n in ParserTable && n != ""
    requires |n| <= |t| && t[..|n|] == n
    ensures !StartsWithIgnoringCase(t, HeaderPrefix)
  {
    if |HeaderPrefix| <= |t| {
      var i := if n[0] == 'c' then 3 else 0;
      assert t[i] == n[i];
      assert Lower(t[..|HeaderPrefix|])[i] == LowerChar(t[i]);
    }
  }

  // ---------------------------------------------------------------------------
  // The round trip

  /** The items of a body parse to its entries. */
  lemma ParseBody(es: seq<Entry>)
    requires forall k :: 0 <= k < |es| ==> GoodEntry(es[k])
    requires FreshNames(map[], es)
    ensures ParseItems(map[], Split(if es == [] then "" else Body(es), ';')) == Success(Collected(map[], es))
  {
    ParseChunks(map[], es, "");
    if es != [] {
      assert "" + Body(es) == Body(es);
      forall k | 0 <= k < |es| ensures ';' !in Line(es[k].0, es[k].1) {
        GoodLine(es[k]);
      }
      SplitBody(es, "");
    } else {
      assert Split("", ';') == [""];
    }
  }

  /** The items of a value-only rendering parse to the collected entries. */
  lemma ParseRenderedItems(ds: Directives, reportOnly: bool)
    requires Representable(ds)
    ensures ParseItems(map[], Split(Render(ds, reportOnly, OutputValueOnly), ';'))
      == Success(Collected(map[], Entries(ds, ValidDirectives)))
  {
    RepresentableEndsSolid(ds);
    RenderedBody(ds, reportOnly);
    EntriesGood(ds, ValidDirectives);
    Registered(BaseUri);
    EntriesDistinct(ds, ValidDirectives);
    ParseBody(Entries(ds, ValidDirectives));
  }

  /** A body does not start like a header name. */
  lemma BodyNotHeader(es: seq<Entry>)
    requires es != [] && GoodEntry(es[0])
    ensures HeaderMatch(Body(es)).None?
  {
    var n := es[0].0;
    BodyShape(es);
    assert Body(es)[..|n|] == n by {
      assert Body(es)[..|Line(es[0].0, es[0].1)|] == Line(es[0].0, es[0].1);
      assert Line(es[0].0, es[0].1)[..|n|] == n;
    }
    KnownNameNotHeader(n, Body(es));
  }

  /** A value-only rendering does not start like a header name. */
  lemma NotAHeader(ds: Directives, reportOnly: bool)
    requires Representable(ds)
    ensures HeaderMatch(Render(ds, reportOnly, OutputValueOnly)).None?
  {
    RepresentableEndsSolid(ds);
    RenderedBody(ds, reportOnly);
    var es := Entries(ds, ValidDirectives);
    if es != [] {
      EntriesGood(ds, ValidDirectives);
      BodyNotHeader(es);
    }
  }

  /** What the parser collects from a rendering is exactly the directives rendered,
      keyed by name. */
  lemma CollectedRendering(ds: Directives)
    ensures var m := Collected(map[], Entries(ds, ValidDirectives));
      && (forall d :: (Name(d) in m <==> d in ds) && (d in ds ==> m[Name(d)] == ds[d]))
      && (forall n :: n in m ==> DecodeName(n).Some? && Name(DecodeName(n).value) == n)
  {
    var es := Entries(ds, ValidDirectives);
    EntriesDecode(ds, ValidDirectives);
    CollectedDecodes(map[], ds, es);
    var m := Collected(map[], es);
    forall d ensures (Name(d) in m <==> d in ds) && (d in ds ==> m[Name(d)] == ds[d]) {
      DecodeNameInverse(d);
      if d in ds {
        Registered(d);
        EntriesCover(ds, ValidDirectives, d);
      }
    }
  }

  /** `parse()` of a header the pattern matches reads the items of its trimmed value. */
  lemma ParseMatchedHeader(s: string, body: string, reportOnly: bool, m: map<string, seq<string>>)
    requires HeaderMatch(Trim(s)).Some? && HeaderMatch(Trim(s)).value.reportOnly == reportOnly
    requires Trim(HeaderMatch(Trim(s)).value.value) == body
    requires ParseItems(map[], Split(body, ';')) == Success(m)
    ensures ParseHeader(s) == Success(ParsedPolicy(reportOnly, m))
  {
  }

  /** `parse()` of a string without white space at its ends that the pattern does not
      match reads its items. */
  lemma ParseBareValue(s: string, m: map<string, seq<string>>)
    requires s == [] || (!IsTrimSpace(s[0]) && !IsTrimSpace(s[|s| - 1]))
    requires HeaderMatch(s).None?
    requires ParseItems(map[], Split(s, ';')) == Success(m)
    ensures ParseHeader(s) == Success(ParsedPolicy(false, m))
  {
    TrimNoop(s);
  }

  /** Parsing what the builder renders gives its directives back, keyed by name, and
      the report-only flag exactly when a report-only full header was rendered. */
  lemma RoundTrip(ds: Directives, reportOnly: bool, outputMode: int)
    requires Representable(ds)
    ensures var p := ParseHeader(Render(ds, reportOnly, outputMode));
      && p.Success?
      && p.value.reportOnly == (reportOnly && outputMode == OutputFullHeader)
      && (forall d :: (Name(d) in p.value.directives <==> d in ds)
           && (d in ds ==> p.value.directives[Name(d)] == ds[d]))
      && (forall n :: n in p.value.directives ==> DecodeName(n).Some? && Name(DecodeName(n).value) == n)
  {
    CollectedRendering(ds);
    if outputMode == OutputFullHeader {
      RoundTripFull(ds, reportOnly);
    } else {
      RoundTripValueOnly(ds, reportOnly, outputMode);
    }
  }

  /** A full header reads back with its report-only flag. */
  lemma RoundTripFull(ds: Directives, reportOnly: bool)
    requires Representable(ds)
    ensures ParseHeader(Render(ds, reportOnly, OutputFullHeader))
      == Success(ParsedPolicy(reportOnly, Collected(map[], Entries(ds, ValidDirectives))))
  {
    var body := Render(ds, reportOnly, OutputValueOnly);
    ParseRenderedItems(ds, reportOnly);
    RenderHeader(ds, reportOnly, OutputFullHeader);
    RenderTrimmed(ds, reportOnly, OutputValueOnly);
    HeaderRecognised(reportOnly, body);
    ParseMatchedHeader(Render(ds, reportOnly, OutputFullHeader), body, reportOnly, Collected(map[], Entries(ds, ValidDirectives)));
  }

  /** A value without the header name reads back without the report-only flag. */
  lemma RoundTripValueOnly(ds: Directives, reportOnly: bool, outputMode: int)
    requires Representable(ds) && outputMode != OutputFullHeader
    ensures ParseHeader(Render(ds, reportOnly, outputMode))
      == Success(ParsedPolicy(false, Collected(map[], Entries(ds, ValidDirectives))))
  {
    assert Render(ds, reportOnly, outputMode) == Render(ds, reportOnly, OutputValueOnly);
    ParseValueOnly(ds, reportOnly);
  }

  /** `RoundTripValueOnly` for the value-only mode itself. */
  lemma ParseValueOnly(ds: Directives, reportOnly: bool)
    requires Representable(ds)
    ensures ParseHeader(Render(ds, reportOnly, OutputValueOnly))
      == Success(ParsedPolicy(false, Collected(map[], Entries(ds, ValidDirectives))))
  {
    var body := Render(ds, reportOnly, OutputValueOnly);
    var m := Collected(map[], Entries(ds, ValidDirectives));
    assert body == [] || (!IsTrimSpace(body[0]) && !IsTrimSpace(body[|body| - 1])) by {
      RenderTrimmed(ds, reportOnly, OutputValueOnly);
    }
    assert HeaderMatch(body).None? by {
      NotAHeader(ds, reportOnly);
    }
    assert ParseItems(map[], Split(body, ';')) == Success(m) by {
      ParseRenderedItems(ds, reportOnly);
    }
    ParseBareValue(body, m);
  }
}
