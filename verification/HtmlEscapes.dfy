/** Undoing the HTML-safe escapes of JSON output (cmd/tamsctl/output.go,
    decodeHTMLEscapes). */
module HtmlEscapes {
  import opened Base

  // ----- The rewriter -----

  /** The character a six-character escape at the front stands for, if it is one of the three. */
  function EscapeAt(b: string): Option<char> {
    if |b| < 6 || b[0] != '\\' || b[1] != 'u' || b[2] != '0' || b[3] != '0' then None
    else if b[4] == '2' && b[5] == '6' then Some('&')
    else if b[4] == '3' && (b[5] == 'c' || b[5] == 'C') then Some('<')
    else if b[4] == '3' && (b[5] == 'e' || b[5] == 'E') then Some('>')
    else None
  }

  predicate PairAt(b: string) { |b| >= 2 && b[0] == '\\' && b[1] == '\\' }

  function Rewrite(b: string): string {
    if b == "" then ""
    else if PairAt(b) then ['\\', '\\'] + Rewrite(b[2..])
    else if EscapeAt(b).Some? then [EscapeAt(b).value] + Rewrite(b[6..])
    else [b[0]] + Rewrite(b[1..])
  }

  lemma RewriteAt(b: string, i: nat)
    requires i < |b|
    ensures PairAt(b[i..]) ==> Rewrite(b[i..]) == ['\\', '\\'] + Rewrite(b[i + 2..])
    ensures !PairAt(b[i..]) && EscapeAt(b[i..]).Some? ==> Rewrite(b[i..]) == [EscapeAt(b[i..]).value] + Rewrite(b[i + 6..])
    ensures !PairAt(b[i..]) && EscapeAt(b[i..]).None? ==> Rewrite(b[i..]) == [b[i]] + Rewrite(b[i + 1..])
  {
    var rest := b[i..];
    assert rest[1..] == b[i + 1..];
    if |rest| >= 2 { assert rest[2..] == b[i + 2..]; }
    if |rest| >= 6 { assert rest[6..] == b[i + 6..]; }
  }

  lemma RewriteCopies(b: string)
    requires b != "" && !PairAt(b) && EscapeAt(b).None?
    ensures Rewrite(b) == [b[0]] + Rewrite(b[1..])
  {
  }

  /** The loop over the buffer. */
  method DecodeHTMLEscapes(b: string) returns (out: string)
    ensures out == Rewrite(b)
  {
    hide Rewrite;
    out := "";
    var i := 0;
    while i < |b|
      invariant 0 <= i <= |b| && out + Rewrite(b[i..]) == Rewrite(b)
    {
      RewriteAt(b, i);
      if b[i] == '\\' && i + 1 < |b| && b[i + 1] == '\\' {
        out := out + ['\\', '\\'];
        i := i + 2;
        continue;
      }
      if b[i] == '\\' && i + 6 <= |b| && b[i + 1] == 'u' {
        var c := EscapeAt(b[i..]);
        if c.Some? {
          out := out + [c.value];
          i := i + 6;
          continue;
        }
      }
      out := out + [b[i]];
      i := i + 1;
    }
    assert b[|b|..] == "";
    EmptyRewrite();
  }

  lemma EmptyRewrite()
    ensures Rewrite("") == ""
  {
  }

  // ----- No escape is left -----

  /** An odd number of backslashes ends just before position i. */
  predicate OddBefore(b: string, i: nat)
    requires i <= |b|
  {
    i > 0 && b[i - 1] == '\\' && !OddBefore(b, i - 1)
  }

  /** An escape for &, < or > whose backslash is not itself escaped. */
  predicate GenuineAt(b: string, i: nat)
    requires i <= |b|
  {
    && i + 6 <= |b| && !OddBefore(b, i)
    && b[i..i + 6] in {"\\u0026", "\\u003c", "\\u003C", "\\u003e", "\\u003E"}
  }

  /** The recognised escapes, letter by letter. */
  lemma EscapesExactly(b: string, i: nat)
    requires i <= |b|
    ensures EscapeAt(b[i..]).Some? <==>
              i + 6 <= |b| && b[i..i + 6] in {"\\u0026", "\\u003c", "\\u003C", "\\u003e", "\\u003E"}
    ensures GenuineAt(b, i) <==> EscapeAt(b[i..]).Some? && !OddBefore(b, i)
  {
    if i + 6 <= |b| {
      var six := b[i..i + 6];
      assert forall k :: 0 <= k < 6 ==> b[i..][k] == six[k];
      assert six == [six[0], six[1], six[2], six[3], six[4], six[5]];
    }
  }

  /** Reading left to right and stepping over escaped backslashes finds no escape. */
  predicate ScansClean(b: string) {
    if b == "" then true
    else if PairAt(b) then ScansClean(b[2..])
    else EscapeAt(b).None? && ScansClean(b[1..])
  }

  predicate Neutral(p: string) { forall c :: c in p ==> c !in {'\\', '&', '<', '>'} }

  /** Text without special characters at the front of the output was at the front of the input. */
  lemma {:induction false} NeutralPrefix(p: string, b: string)
    requires Neutral(p) && p <= Rewrite(b)
    ensures p <= b
  {
    if p == "" {
    } else {
      assert p[0] in p && forall c :: c in p[1..] ==> c in p;
      assert !PairAt(b) && EscapeAt(b).None?;
      assert p[1..] <= Rewrite(b[1..]);
      NeutralPrefix(p[1..], b[1..]);
    }
  }

  lemma {:induction false} RewriteScansClean(b: string)
    ensures ScansClean(Rewrite(b))
  {
    if b == "" {
    } else {
      if PairAt(b) {
        RewriteScansClean(b[2..]);
        assert (['\\', '\\'] + Rewrite(b[2..]))[2..] == Rewrite(b[2..]);
      } else if EscapeAt(b).Some? {
        RewriteScansClean(b[6..]);
        assert ([EscapeAt(b).value] + Rewrite(b[6..]))[1..] == Rewrite(b[6..]);
      } else {
        RewriteScansClean(b[1..]);
        var out := [b[0]] + Rewrite(b[1..]);
        assert out[1..] == Rewrite(b[1..]);
        if b[0] == '\\' { assert b == ['\\'] + b[1..]; LoneBackslash(b[1..]); }
      }
    }
  }

  /** A backslash copied on its own starts neither a pair nor an escape in the output. */
  lemma LoneBackslash(t: string)
    requires !PairAt(['\\'] + t) && EscapeAt(['\\'] + t).None?
    ensures !PairAt(['\\'] + Rewrite(t)) && EscapeAt(['\\'] + Rewrite(t)).None?
  {
    var b, r := ['\\'] + t, Rewrite(t);
    if t != "" { assert b[1] == t[0]; RewriteCopies(t); }
    hide Rewrite;
    if EscapeAt(['\\'] + r).Some? {
      var p := r[..5];
      assert forall i :: 0 <= i < 5 ==> p[i] == (['\\'] + r)[i + 1];
      NeutralPrefix(p, t);
      assert forall i :: 0 <= i < 5 ==> b[i + 1] == t[i];
      assert false;
    }
  }

  lemma {:induction false} CleanIsFixed(b: string)
    requires ScansClean(b)
    ensures Rewrite(b) == b
  {
    if b == "" {
    } else {
      if PairAt(b) { CleanIsFixed(b[2..]); } else { CleanIsFixed(b[1..]); }
    }
  }

  /** Rewriting twice is rewriting once, on every byte string. */
  lemma RewriteIsIdempotent(b: string)
    ensures Rewrite(Rewrite(b)) == Rewrite(b)
  {
    RewriteScansClean(b);
    CleanIsFixed(Rewrite(b));
  }

  /** The scan misses no genuine escape, provided it starts where it should. */
  lemma {:induction false} ScanMissesNothing(b: string, from: nat, i: nat)
    requires from <= i <= |b| && ScansClean(b[from..]) && (from < |b| && b[from] == '\\' ==> !OddBefore(b, from))
    ensures !GenuineAt(b, i)
    decreases i - from
  {
    var rest := b[from..];
    EscapesExactly(b, i);
    hide GenuineAt;
    if i == from {
      if from < |b| { assert rest[0] == b[from]; }
    } else if PairAt(rest) {
      assert OddBefore(b, from + 1) && !OddBefore(b, from + 2);
      assert rest[2..] == b[from + 2..] && b[from] == rest[0] && b[from + 1] == rest[1];
      if i > from + 1 { ScanMissesNothing(b, from + 2, i); }
    } else {
      assert rest[1..] == b[from + 1..] && rest[0] == b[from];
      if from + 1 < |b| { assert rest[1] == b[from + 1]; }
      ScanMissesNothing(b, from + 1, i);
    }
  }

  /** The output holds no escape for &, < or > that a JSON reader would decode. */
  lemma NoGenuineEscapeLeft(b: string, i: nat)
    requires i <= |Rewrite(b)|
    ensures !GenuineAt(Rewrite(b), i)
  {
    var out := Rewrite(b);
    RewriteScansClean(b);
    assert out[0..] == out;
    ScanMissesNothing(out, 0, i);
  }

  /** A text without genuine escapes is not touched. */
  lemma OnlyGenuineRewritten(b: string)
    requires forall i :: 0 <= i <= |b| ==> !GenuineAt(b, i)
    ensures Rewrite(b) == b
  {
    assert b[0..] == b;
    NothingToScan(b, 0);
    CleanIsFixed(b);
  }

  lemma {:induction false} NothingToScan(b: string, from: nat)
    requires from <= |b| && (from < |b| && b[from] == '\\' ==> !OddBefore(b, from))
    requires forall i :: 0 <= i <= |b| ==> !GenuineAt(b, i)
    ensures ScansClean(b[from..])
    decreases |b| - from
  {
    hide GenuineAt;
    EscapesExactly(b, from);
    var rest := b[from..];
    if rest == "" {
    } else if PairAt(rest) {
      assert b[from] == rest[0] && b[from + 1] == rest[1] && rest[2..] == b[from + 2..];
      assert OddBefore(b, from + 1) && !OddBefore(b, from + 2);
      NothingToScan(b, from + 2);
    } else {
      assert rest[0] == b[from] && rest[1..] == b[from + 1..];
      if from + 1 < |b| { assert rest[1] == b[from + 1]; }
      NothingToScan(b, from + 1);
    }
  }

  // ----- The value is kept -----

  /** The lexical reading of a JSON text, with the string escapes of section 7 of
      RFC 8259: what stands outside strings, the quotes, and the decoded content. An
      escape below 128 is the byte it names; a wider one stays a UTF-16 unit. */
  datatype Token = Outside(c: char) | Quote | Content(code: int) | Unit(code: int)

  predicate IsHex(c: char) { '0' <= c <= '9' || 'a' <= c <= 'f' || 'A' <= c <= 'F' }

  function HexValue(c: char): int
    requires IsHex(c)
  {
    if '0' <= c <= '9' then (c - '0') as int
    else if 'a' <= c <= 'f' then (c - 'a') as int + 10 else (c - 'A') as int + 10
  }

  const SHORT_ESCAPES := map['\"' := 34, '\\' := 92, '/' := 47, 'b' := 8, 'f' := 12, 'n' := 10, 'r' := 13, 't' := 9]

  /** The element at the front of string content: its token and its length. */
  function ContentAt(s: string): Option<(Token, nat)>
    requires s != ""
  {
    if s[0] != '\\' then (if s[0] < ' ' then None else Some((Content(s[0] as int), 1)))
    else if |s| >= 2 && s[1] in SHORT_ESCAPES then Some((Content(SHORT_ESCAPES[s[1]]), 2))
    else if |s| >= 6 && s[1] == 'u' && IsHex(s[2]) && IsHex(s[3]) && IsHex(s[4]) && IsHex(s[5]) then
      var v := 4096 * HexValue(s[2]) + 256 * HexValue(s[3]) + 16 * HexValue(s[4]) + HexValue(s[5]);
      Some((if v < 128 then Content(v) else Unit(v), 6))
    else None
  }

  /** None is a text that no JSON reader accepts. */
  function Lex(s: string, inString: bool): Option<seq<Token>> {
    if s == "" then (if inString then None else Some([]))
    else if s[0] == '\"' then Prepend(Quote, Lex(s[1..], !inString))
    else if !inString then (if s[0] == '\\' then None else Prepend(Outside(s[0]), Lex(s[1..], false)))
    else
      var e := ContentAt(s);
      if e.None? then None else Prepend(e.value.0, Lex(s[e.value.1..], true))
  }

  function Prepend(t: Token, rest: Option<seq<Token>>): Option<seq<Token>> {
    if rest.None? then None else Some([t] + rest.value)
  }

  /** Text without backslashes passes through. */
  lemma {:induction false} RewritePlain(p: string, rest: string)
    requires '\\' !in p
    ensures Rewrite(p + rest) == p + Rewrite(rest)
  {
    hide Rewrite;
    if p == "" {
      assert p + rest == rest;
    } else {
      RewritePlain(p[1..], rest);
      RewriteCopies(p + rest);
      assert (p + rest)[1..] == p[1..] + rest;
      assert p == [p[0]] + p[1..];
    }
  }

  /** The output for the element at the front of string content. */
  function Head(s: string): string
    requires s != "" && ContentAt(s).Some?
  {
    if !PairAt(s) && EscapeAt(s).Some? then [EscapeAt(s).value] else s[..ContentAt(s).value.1]
  }

  lemma RewriteElement(s: string)
    requires s != "" && ContentAt(s).Some?
    ensures Rewrite(s) == Head(s) + Rewrite(s[ContentAt(s).value.1..])
  {
    if !PairAt(s) && EscapeAt(s).None? && s[0] == '\\' {
      var n := ContentAt(s).value.1;
      EscapeBody(s);
      assert s == [s[0]] + (s[1..n] + s[n..]) && s[..n] == [s[0]] + s[1..n];
      LoneElement(s[0], s[1..n], s[n..]);
    } else {
      RewriteAt(s, 0);
      assert s[0..] == s;
    }
  }

  /** After its backslash an escape holds no other, unless it is the escape of one. */
  lemma EscapeBody(s: string)
    requires s != "" && ContentAt(s).Some? && s[0] == '\\' && !PairAt(s)
    ensures '\\' !in s[1..ContentAt(s).value.1]
  {
    var n := ContentAt(s).value.1;
    forall i | 0 <= i < |s[1..n]| ensures s[1..n][i] != '\\' {
      assert s[1..n][i] == s[i + 1];
    }
  }

  lemma LoneElement(c: char, p: string, rest: string)
    requires var b := [c] + (p + rest); !PairAt(b) && EscapeAt(b).None? && '\\' !in p
    ensures Rewrite([c] + (p + rest)) == [c] + p + Rewrite(rest)
  {
    hide Rewrite;
    var b := [c] + (p + rest);
    RewriteCopies(b);
    assert b[1..] == p + rest;
    RewritePlain(p, rest);
  }

  /** That output is read as the same element, whatever follows it. */
  lemma HeadReadsAlike(s: string, tail: string)
    requires s != "" && ContentAt(s).Some?
    ensures ContentAt(Head(s) + tail) == Some((ContentAt(s).value.0, |Head(s)|))
    ensures Head(s)[0] == '\"' ==> s[0] == '\"'
  {
    var n := ContentAt(s).value.1;
    var out := Head(s) + tail;
    assert forall i :: 0 <= i < |Head(s)| ==> out[i] == Head(s)[i];
  }

  /** The rewritten text reads as the original does, token by token: every
      well-formed JSON text keeps its value. */
  lemma {:induction false} ValueIsKept(s: string, inString: bool)
    requires Lex(s, inString).Some?
    ensures Lex(Rewrite(s), inString) == Lex(s, inString)
    decreases |s|
  {
    if s == "" {
    } else {
      if s[0] == '\"' || !inString {
        var mode := if s[0] == '\"' then !inString else false;
        ValueIsKept(s[1..], mode);
        assert Rewrite(s) == [s[0]] + Rewrite(s[1..]);
        assert ([s[0]] + Rewrite(s[1..]))[1..] == Rewrite(s[1..]);
      } else {
        var n := ContentAt(s).value.1;
        ValueIsKept(s[n..], true);
        RewriteElement(s);
        HeadReadsAlike(s, Rewrite(s[n..]));
        assert (Head(s) + Rewrite(s[n..]))[|Head(s)|..] == Rewrite(s[n..]);
      }
    }
  }
}
