/** The PHP string built-ins the library relies on, over `string` (= `seq<char>`):
    `trim`, `strtolower`, `explode` and `implode` with a one-character separator,
    and the character class `\s` of the PCRE engine behind `preg_match`. */
module PhpStrings {

  /** The characters `trim()` strips by default: " ", "\t", "\n", "\r", "\0" and "\x0B". */
  predicate IsTrimSpace(c: char) {
    c == ' ' || c == '\t' || c == '\n' || c == '\r' || c == '\0' || c == 11 as char
  }

  /** The PCRE class `\s`: space, "\t", "\n", "\x0B", "\f" and "\r". */
  predicate IsPcreSpace(c: char) {
    c == ' ' || c == '\t' || c == '\n' || c == 11 as char || c == 12 as char || c == '\r'
  }

  predicate IsUpper(c: char) {
    'A' <= c <= 'Z'
  }

  /** `ltrim()`: drops the leading trim spaces and nothing else. */
  function TrimLeft(s: string): (r: string)
    ensures |r| <= |s| && r == s[|s| - |r|..]
    ensures forall i :: 0 <= i < |s| - |r| ==> IsTrimSpace(s[i])
    ensures r == [] || !IsTrimSpace(r[0])
  {
    if |s| > 0 && IsTrimSpace(s[0]) then TrimLeft(s[1..]) else s
  }

  /** `rtrim()`: drops the trailing trim spaces and nothing else. */
  function TrimRight(s: string): (r: string)
    ensures |r| <= |s| && r == s[..|r|]
    ensures forall i :: |r| <= i < |s| ==> IsTrimSpace(s[i])
    ensures r == [] || !IsTrimSpace(r[|r| - 1])
  {
    if |s| > 0 && IsTrimSpace(s[|s| - 1]) then TrimRight(s[..|s| - 1]) else s
  }

  /** `trim()`: the longest infix of `s` that neither starts nor ends with a trim space
      (`TrimStripsSpaces` shows that only trim spaces are cut off). */
  function Trim(s: string): (r: string)
    ensures |r| <= |s|
    ensures r == [] || (!IsTrimSpace(r[0]) && !IsTrimSpace(r[|r| - 1]))
    ensures (forall i :: 0 <= i < |s| ==> IsTrimSpace(s[i])) <==> r == []
  {
    var t := TrimRight(s);
    assert t == [] || !IsTrimSpace(t[|t| - 1]);
    var r := TrimLeft(t);
    assert r != [] ==> r[|r| - 1] == t[|t| - 1];
    r
  }

  /** The ASCII lower case of one character; every other character is left alone. */
  function LowerChar(c: char): (r: char)
    ensures !IsUpper(r)
    ensures IsUpper(c) ==> r as int == c as int + 32
    ensures !IsUpper(c) ==> r == c
  {
    if IsUpper(c) then (c as int + 32) as char else c
  }

  /** `strtolower()` (PHP 8.2 and later: ASCII only, independent of the locale). */
  function Lower(s: string): (r: string)
    ensures |r| == |s|
    ensures forall i :: 0 <= i < |r| ==> !IsUpper(r[i])
    ensures forall i :: 0 <= i < |s| && !IsUpper(s[i]) ==> r[i] == s[i]
    ensures forall i :: 0 <= i < |s| ==> r[i] == LowerChar(s[i])
  {
    seq(|s|, i requires 0 <= i < |s| => LowerChar(s[i]))
  }

  /** `explode(sep, s)` for a one-character separator: the pieces between the separators, never none. */
  function Split(s: string, sep: char): (r: seq<string>)
    ensures |r| >= 1
    ensures forall k :: 0 <= k < |r| ==> sep !in r[k]
  {
    if s == [] then [""]
    else
      var rest := Split(s[1..], sep);
      if s[0] == sep then [""] + rest
      else [[s[0]] + rest[0]] + rest[1..]
  }

  /** `implode(sep, parts)` for a one-character separator; `implode(sep, [])` is "". */
  function Join(sep: char, parts: seq<string>): (r: string)
    ensures forall c :: c in r && c != sep ==> exists k :: 0 <= k < |parts| && c in parts[k]
  {
    if parts == [] then ""
    else if |parts| == 1 then parts[0]
    else parts[0] + [sep] + Join(sep, parts[1..])
  }

  // ---------------------------------------------------------------------------
  // Lemmas about explode and implode

  /** Exploding and imploding again on the same separator gives back the input. */
  lemma {:induction false} JoinSplit(s: string, sep: char)
    ensures Join(sep, Split(s, sep)) == s
  {
    if s != [] {
      JoinSplit(s[1..], sep);
      var rest := Split(s[1..], sep);
      if s[0] == sep {
        assert Split(s, sep) == [""] + rest;
        assert s == [sep] + s[1..];
      } else {
        var r := Split(s, sep);
        assert r[0] == [s[0]] + rest[0] && r[1..] == rest[1..];
        if |rest| == 1 {
          assert s == [s[0]] + rest[0];
        } else {
          assert Join(sep, rest) == rest[0] + [sep] + Join(sep, rest[1..]);
        }
      }
    }
  }

  /** A string without the separator explodes into itself alone. */
  lemma {:induction false} SplitNoSep(s: string, sep: char)
    requires sep !in s
    ensures Split(s, sep) == [s]
  {
    if s != [] {
      SplitNoSep(s[1..], sep);
      assert [s[0]] + s[1..] == s;
    }
  }

  /** Exploding `a + sep + b` gives the pieces of `a` followed by the pieces of `b`. */
  lemma {:induction false} SplitConcat(a: string, b: string, sep: char)
    ensures Split(a + [sep] + b, sep) == Split(a, sep) + Split(b, sep)
  {
    if a == [] {
      SplitCons(sep, b, sep);
      assert a + [sep] + b == [sep] + b;
    } else {
      var s, t := a + [sep] + b, a[1..] + [sep] + b;
      var sa, sb := Split(a[1..], sep), Split(b, sep);
      SplitConcat(a[1..], b, sep);
      assert s[0] == a[0] && s[1..] == t;
      if a[0] != sep {
        PiecesCons([a[0]], sa, sb);
      } else {
        assert [""] + (sa + sb) == ([""] + sa) + sb;
      }
    }
  }

  /** Prefixing the first piece distributes over appending more pieces. */
  lemma PiecesCons(p: string, sa: seq<string>, sb: seq<string>)
    requires |sa| >= 1
    ensures [p + (sa + sb)[0]] + (sa + sb)[1..] == ([p + sa[0]] + sa[1..]) + sb
  {
    assert (sa + sb)[1..] == sa[1..] + sb;
  }

  /** One step of `explode`: the first character either ends the first piece or
      joins it. */
  lemma SplitCons(c: char, t: string, sep: char)
    ensures c == sep ==> Split([c] + t, sep) == [""] + Split(t, sep)
    ensures c != sep ==> Split([c] + t, sep) == [[c] + Split(t, sep)[0]] + Split(t, sep)[1..]
  {
    assert ([c] + t)[1..] == t;
  }

  /** Imploding pieces that do not contain the separator and exploding again gives the pieces back. */
  lemma {:induction false} SplitJoin(parts: seq<string>, sep: char)
    requires |parts| >= 1
    requires forall k :: 0 <= k < |parts| ==> sep !in parts[k]
    ensures Split(Join(sep, parts), sep) == parts
  {
    if |parts| == 1 {
      SplitNoSep(parts[0], sep);
    } else {
      SplitJoin(parts[1..], sep);
      SplitNoSep(parts[0], sep);
      SplitConcat(parts[0], Join(sep, parts[1..]), sep);
      assert [parts[0]] + parts[1..] == parts;
    }
  }

  /** The last character of an implosion is the last character of its last piece. */
  lemma {:induction false} JoinLast(sep: char, parts: seq<string>)
    requires |parts| >= 1 && parts[|parts| - 1] != []
    ensures Join(sep, parts) != []
    ensures Join(sep, parts)[|Join(sep, parts)| - 1] == parts[|parts| - 1][|parts[|parts| - 1]| - 1]
  {
    if |parts| > 1 {
      JoinLast(sep, parts[1..]);
    }
  }

  // ---------------------------------------------------------------------------
  // Lemmas about trim and strtolower

  /** A string without trim spaces at either end is left alone by `trim()`. */
  lemma TrimNoop(s: string)
    requires s == [] || (!IsTrimSpace(s[0]) && !IsTrimSpace(s[|s| - 1]))
    ensures Trim(s) == s
  {
  }

  /** `trim()` is idempotent. */
  lemma TrimIdempotent(s: string)
    ensures Trim(Trim(s)) == Trim(s)
  {
    var t := Trim(s);
    assert t == [] || (!IsTrimSpace(t[0]) && !IsTrimSpace(t[|t| - 1]));
    TrimNoop(t);
  }

  /** `trim()` removes trim spaces and nothing else: the result is the infix of `s`
      between a run of leading and a run of trailing trim spaces. */
  lemma TrimStripsSpaces(s: string) returns (i: nat)
    ensures i + |Trim(s)| <= |s| && Trim(s) == s[i..i + |Trim(s)|]
    ensures forall k :: 0 <= k < i ==> IsTrimSpace(s[k])
    ensures forall k :: i + |Trim(s)| <= k < |s| ==> IsTrimSpace(s[k])
  {
    var t := TrimRight(s);
    var r := TrimLeft(t);
    assert r == Trim(s);
    i := |t| - |r|;
    assert r == s[i..i + |r|];
    forall k | 0 <= k < i ensures IsTrimSpace(s[k]) {
      assert s[k] == t[k];
    }
  }

  /** `rtrim()` only looks past a non-space: text before it is kept verbatim. */
  lemma {:induction false} TrimRightConcat(a: string, b: string)
    requires a != [] && !IsTrimSpace(a[|a| - 1])
    ensures TrimRight(a + b) == a + TrimRight(b)
  {
    if b != [] && IsTrimSpace(b[|b| - 1]) {
      TrimRightConcat(a, b[..|b| - 1]);
      assert (a + b)[..|a + b| - 1] == a + b[..|b| - 1];
    } else {
      assert b == [] ==> a + b == a;
    }
  }

  /** Leading trim spaces make no difference to `ltrim()`. */
  lemma {:induction false} TrimLeftSpaces(ws: string, b: string)
    requires forall i :: 0 <= i < |ws| ==> IsTrimSpace(ws[i])
    ensures TrimLeft(ws + b) == TrimLeft(b)
  {
    if ws != [] {
      TrimLeftSpaces(ws[1..], b);
      assert (ws + b)[1..] == ws[1..] + b;
    } else {
      assert ws + b == b;
    }
  }

  /** One leading space goes; nothing else does. */
  lemma TrimSpaceBefore(s: string)
    requires s != [] && !IsTrimSpace(s[0]) && !IsTrimSpace(s[|s| - 1])
    ensures Trim(" " + s) == s
  {
    var t := " " + s;
    assert TrimRight(t) == t;
    assert t[1..] == s;
  }

  /** A string that starts with a non-space is unchanged by `ltrim()`. */
  lemma TrimLeftNoop(s: string)
    requires s != [] && !IsTrimSpace(s[0])
    ensures TrimLeft(s) == s
  {
  }

  /** `rtrim()` is idempotent. */
  lemma TrimRightIdempotent(s: string)
    ensures TrimRight(TrimRight(s)) == TrimRight(s)
  {
  }

  /** `strtolower()` is idempotent. */
  lemma LowerIdempotent(s: string)
    ensures Lower(Lower(s)) == Lower(s)
  {
  }

  /** A string without upper-case letters is its own lower case. */
  lemma LowerNoop(s: string)
    requires forall i :: 0 <= i < |s| ==> !IsUpper(s[i])
    ensures Lower(s) == s
  {
  }

  /** `strtolower()` works character by character, so it distributes over concatenation. */
  lemma LowerConcat(a: string, b: string)
    ensures Lower(a + b) == Lower(a) + Lower(b)
  {
  }
}
