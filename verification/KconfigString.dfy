/** Quoting of string values when writing a configuration and unquoting when reading it
    (sym_escape_string_value in nemu/tools/kconfig/symbol.c:875-916, the S_STRING case of
    conf_set_sym_val in nemu/tools/kconfig/confdata.c:261-281). */
module KconfigString {
  import opened Options

  predicate Special(c: char) { c == '\"' || c == '\\' }

  predicate Plain(s: string) { forall i :: 0 <= i < |s| ==> !Special(s[i]) }

  /** Every quote and backslash preceded by a backslash. */
  function EscapeBody(s: string): string {
    if s == [] then []
    else EscapeChar(s[0]) + EscapeBody(s[1..])
  }

  function Escape(s: string): string {
    "\"" + EscapeBody(s) + "\""
  }

  function Prepend(p: string, r: Option<string>): Option<string> {
    if r.None? then None else Some(p + r.value)
  }

  /** What reading makes of the text after the opening quote; nothing if the closing quote is missing. */
  function Unescape(s: string): Option<string> {
    if s == [] then None
    else if s[0] == '\"' then Some([])
    else if s[0] != '\\' then Prepend([s[0]], Unescape(s[1..]))
    else if |s| == 1 then None
    else Prepend([s[1]], Unescape(s[2..]))
  }

  /** A value that is not quoted is passed over, an unfinished one is an error. */
  datatype ReadOutcome = NotQuoted | Unfinished | Accepted(value: string)

  /** What reading makes of a value as it stands on the line. */
  function ReadValue(line: string): ReadOutcome {
    if line == [] || line[0] != '\"' then NotQuoted
    else match Unescape(line[1..])
      case None => Unfinished
      case Some(v) => Accepted(v)
  }

  /** Reading inverts writing, whatever follows the closing quote. */
  lemma {:induction false} UnescapeEscape(s: string, rest: string)
    ensures ReadValue(Escape(s) + rest) == Accepted(s)
  {
    assert (Escape(s) + rest)[0] == '\"';
    assert (Escape(s) + rest)[1..] == EscapeBody(s) + ("\"" + rest);
    UnescapeBody(s, "\"" + rest);
    assert Unescape("\"" + rest) == Some([]);
    assert s + [] == s;
  }

  /** A character as it is written. */
  function EscapeChar(c: char): string { if Special(c) then ['\\', c] else [c] }

  lemma UnescapeChar(c: char, e: string)
    ensures Unescape(EscapeChar(c) + e) == Prepend([c], Unescape(e))
  {
    var w := EscapeChar(c) + e;
    assert w[|EscapeChar(c)|..] == e;
  }

  lemma {:induction false} UnescapeBody(s: string, tail: string)
    ensures Unescape(EscapeBody(s) + tail) == Prepend(s, Unescape(tail))
  {
    if s == [] {
      assert EscapeBody(s) + tail == tail;
      assert Unescape(tail).Some? ==> [] + Unescape(tail).value == Unescape(tail).value;
    } else {
      var e := EscapeBody(s[1..]) + tail;
      assert EscapeBody(s) + tail == EscapeChar(s[0]) + e;
      UnescapeBody(s[1..], tail);
      UnescapeChar(s[0], e);
      PrependTwice([s[0]], s[1..], Unescape(tail));
      assert [s[0]] + s[1..] == s;
    }
  }

  lemma PrependTwice(p: string, q: string, r: Option<string>)
    ensures Prepend(p, Prepend(q, r)) == Prepend(p + q, r)
  {
    if r.Some? { assert p + (q + r.value) == (p + q) + r.value; }
  }

  // ----- writing -----

  lemma {:induction false} EscapeConcat(a: string, b: string)
    ensures EscapeBody(a + b) == EscapeBody(a) + EscapeBody(b)
  {
    if a == [] {
      assert a + b == b;
    } else {
      assert (a + b)[1..] == a[1..] + b;
      EscapeConcat(a[1..], b);
    }
  }

  lemma {:induction false} EscapePlain(s: string)
    requires Plain(s)
    ensures EscapeBody(s) == s
  {
    if s != [] {
      EscapePlain(s[1..]);
      assert [s[0]] + s[1..] == s;
    }
  }

  /** strcspn(s + p, "\"\\"). */
  method Span(s: string, p: nat) returns (l: nat)
    requires p <= |s|
    ensures p + l <= |s| && Plain(s[p..p + l])
    ensures p + l < |s| ==> Special(s[p + l])
  {
    l := 0;
    while p + l < |s| && !Special(s[p + l])
      invariant p + l <= |s| && Plain(s[p..p + l])
    {
      assert s[p..p + l + 1] == s[p..p + l] + [s[p + l]];
      l := l + 1;
    }
  }

  /** One round of either loop: a plain stretch and the special character that ends it. */
  lemma EscapeRound(s: string, p: nat, l: nat)
    requires p + l <= |s| && Plain(s[p..p + l])
    ensures EscapeBody(s[..p + l]) == EscapeBody(s[..p]) + s[p..p + l]
    ensures p + l < |s| && Special(s[p + l]) ==>
              EscapeBody(s[..p + l + 1]) == EscapeBody(s[..p]) + s[p..p + l] + ['\\', s[p + l]]
  {
    assert s[..p + l] == s[..p] + s[p..p + l];
    EscapeConcat(s[..p], s[p..p + l]);
    EscapePlain(s[p..p + l]);
    if p + l < |s| && Special(s[p + l]) {
      assert s[..p + l + 1] == s[..p + l] + [s[p + l]];
      EscapeConcat(s[..p + l], [s[p + l]]);
      assert EscapeBody([s[p + l]]) == ['\\', s[p + l]] + EscapeBody([s[p + l]][1..]);
    }
  }

  /** The first loop of sym_escape_string_value, which sizes the buffer. */
  method EscapedSize(s: string) returns (reslen: nat)
    ensures reslen == |Escape(s)| + 1
  {
    reslen := |s| + 2 + 1;
    var p := 0;
    while true
      invariant p <= |s| && reslen == |EscapeBody(s[..p])| + (|s| - p) + 3
      decreases |s| - p
    {
      var l := Span(s, p);
      EscapeRound(s, p, l);
      p := p + l;
      if p == |s| { break; }
      reslen := reslen + 1;
      p := p + 1;
    }
    assert s[..|s|] == s;
  }

  /** The second loop, which fills it. */
  method EscapedText(s: string) returns (res: string)
    ensures res == Escape(s)
  {
    res := "\"";
    var p := 0;
    ghost var body := [];
    while true
      invariant p <= |s| && body == EscapeBody(s[..p]) && res == "\"" + body
      decreases |s| - p
    {
      var l := Span(s, p);
      EscapeRound(s, p, l);
      res := res + s[p..p + l];
      body := body + s[p..p + l];
      p := p + l;
      if p == |s| { break; }
      res := res + ['\\', s[p]];
      body := body + ['\\', s[p]];
      p := p + 1;
    }
    assert s[..|s|] == s;
    res := res + "\"";
  }

  /** sym_escape_string_value: the buffer is exactly as large as what is written, terminator included. */
  method EscapeStringValue(s: string) returns (res: string, reslen: nat)
    ensures res == Escape(s)
    ensures reslen == |res| + 1
  {
    reslen := EscapedSize(s);
    res := EscapedText(s);
  }

  // ----- reading, in place -----

  /** Memory m holds the C string s at position start. */
  ghost predicate HoldsString(m: string, start: nat, s: string) {
    && start + |s| < |m| && m[start + |s|] == '\0'
    && m[start..start + |s|] == s
    && '\0' !in s
  }

  lemma {:induction false} UnescapePlain(s: string, k: nat)
    requires k <= |s| && Plain(s[..k])
    ensures Unescape(s) == Prepend(s[..k], Unescape(s[k..]))
  {
    if k == 0 {
      assert s[..0] == [] && s[0..] == s;
      assert Unescape(s).Some? ==> [] + Unescape(s).value == Unescape(s).value;
    } else {
      assert Plain(s[1..][..k - 1]) by { assert s[1..][..k - 1] == s[..k][1..]; }
      assert !Special(s[..k][0]);
      UnescapePlain(s[1..], k - 1);
      PrependTwice([s[0]], s[1..][..k - 1], Unescape(s[k..]));
      assert [s[0]] + s[1..][..k - 1] == s[..k] && s[1..][k - 1..] == s[k..];
    }
  }

  /** strpbrk(buf + p, "\"\\"), given where the terminator of the string at p is. */
  method FindSpecial(buf: array<char>, p: nat, ghost end: nat) returns (q: Option<nat>)
    requires p <= end < buf.Length && buf[end] == '\0' && '\0' !in buf[..][p..end]
    ensures q.None? ==> Plain(buf[..][p..end])
    ensures q.Some? ==> p <= q.value < end && Special(buf[q.value]) && Plain(buf[..][p..q.value])
  {
    var i := p;
    ghost var m := buf[..];
    assert forall k {:trigger m[k]} :: p <= k < end ==> m[p..end][k - p] == m[k];
    while buf[i] != '\0'
      invariant p <= i <= end && Plain(m[p..i])
      decreases end - i
    {
      assert m[i] == buf[i];
      if Special(buf[i]) { return Some(i); }
      assert m[p..i + 1] == m[p..i] + [m[i]];
      i := i + 1;
    }
    assert m[i] == '\0';
    return None;
  }

  /** strlen(buf + q). */
  method StrLen(buf: array<char>, q: nat, ghost stop: nat) returns (n: nat)
    requires q <= stop < buf.Length && buf[stop] == '\0' && '\0' !in buf[..][q..stop]
    ensures n == stop - q
  {
    n := 0;
    ghost var m := buf[..];
    assert forall k {:trigger m[k]} :: q <= k < stop ==> m[q..stop][k - q] == m[k];
    while buf[q + n] != '\0'
      invariant q + n <= stop
      decreases stop - n
    {
      assert m[q + n] == buf[q + n];
      n := n + 1;
    }
    assert m[q + n] == '\0';
  }

  /** Memory after memmove(m + q, m + q + 1, n): position q is overwritten. */
  function Moved(m: string, q: nat, n: nat): string
    requires q + n < |m|
  {
    m[..q] + m[q + 1..q + n + 1] + m[q + n..]
  }

  method ShiftLeft(buf: array<char>, q: nat, n: nat)
    requires q + n < buf.Length
    modifies buf
    ensures buf[..] == Moved(old(buf[..]), q, n)
  {
    forall i | q <= i < q + n { buf[i] := buf[i + 1]; }
  }

  /** The loop state: `done` has been read and lies before p; the rest of the line is the C string
      at p. When a lone backslash ended the line, nothing is left and `done` no longer matters. */
  ghost predicate Reading(m: string, start: nat, nul: nat, line: string, p: nat, stop: nat, done: string) {
    && start <= p <= stop <= nul < |m|
    && m[stop] == '\0' && '\0' !in m[p..stop]
    && Unescape(line) == Prepend(done, Unescape(m[p..stop]))
    && (p < stop ==> m[start..p] == done && '\0' !in done)
  }

  lemma ReadingStarts(m: string, start: nat, line: string)
    requires HoldsString(m, start, line)
    ensures Reading(m, start, start + |line|, line, start, start + |line|, "")
  {
    if Unescape(line).Some? { assert [] + Unescape(line).value == Unescape(line).value; }
  }

  /** No quote or backslash is left: the closing quote is missing. */
  lemma ReadingFails(m: string, start: nat, nul: nat, line: string, p: nat, stop: nat, done: string)
    requires Reading(m, start, nul, line, p, stop, done) && Plain(m[p..stop])
    ensures Unescape(line).None?
  {
    var rest := m[p..stop];
    assert rest[..|rest|] == rest && rest[|rest|..] == [];
    UnescapePlain(rest, |rest|);
  }

  /** Stepping over a plain stretch. */
  lemma ReadingReaches(m: string, start: nat, nul: nat, line: string, p: nat, q: nat, stop: nat, done: string)
    requires Reading(m, start, nul, line, p, stop, done) && p <= q < stop && Plain(m[p..q])
    ensures '\0' !in m[start..q] && '\0' !in m[q..stop]
    ensures Unescape(line) == Prepend(m[start..q], Unescape(m[q..stop]))
  {
    var rest, k := m[p..stop], q - p;
    assert rest[..k] == m[p..q] && rest[k..] == m[q..stop];
    UnescapePlain(rest, k);
    PrependTwice(done, m[p..q], Unescape(m[q..stop]));
    assert m[start..q] == done + m[p..q];
  }

  /** A backslash and the character it protects, at the front of the rest. */
  lemma UnescapePair(before: string, s: string)
    requires |s| >= 2 && s[0] == '\\'
    ensures Prepend(before, Unescape(s)) == Prepend(before + [s[1]], Unescape(s[2..]))
  {
    PrependTwice(before, [s[1]], Unescape(s[2..]));
  }

  /** What a move over position q leaves in the parts of the line. */
  lemma MovedParts(m: string, start: nat, q: nat, stop: nat)
    requires start <= q < stop < |m|
    ensures var m2 := Moved(m, q, stop - q);
            && |m2| == |m| && m2[start..q] == m[start..q] && m2[..start] == m[..start] && m2[stop..] == m[stop..]
            && m2[stop] == m[stop] && m2[stop - 1] == m[stop]
            && (q + 1 < stop ==> m2[q] == m[q + 1] && m2[q + 1..stop - 1] == m[q + 2..stop])
  {
    var m2 := Moved(m, q, stop - q);
    assert forall i {:trigger m2[i]} :: 0 <= i < |m| ==> m2[i] == if q <= i < stop then m[i + 1] else m[i];
  }

  /** Reading goes on behind the protected character; `left` is where the terminator is then. */
  lemma ReadingDrops(m: string, start: nat, nul: nat, line: string, p: nat, q: nat, stop: nat, done: string)
    returns (left: nat, done': string)
    requires Reading(m, start, nul, line, p, stop, done) && p <= q < stop && Plain(m[p..q]) && m[q] == '\\'
    ensures Reading(Moved(m, q, stop - q), start, nul, line, q + 1, left, done')
  {
    ReadingReaches(m, start, nul, line, p, q, stop, done);
    MovedParts(m, start, q, stop);
    var m2, before, rest := Moved(m, q, stop - q), m[start..q], m[q..stop];
    if stop == q + 1 {
      left, done' := stop, [];
      assert rest == ['\\'] && m2[q + 1..stop] == [];
    } else {
      UnescapePair(before, rest);
      left, done' := stop - 1, before + [rest[1]];
      assert rest[2..] == m[q + 2..stop];
      StillReading(m, m2, start, q, stop, before);
    }
  }

  lemma StillReading(m: string, m2: string, start: nat, q: nat, stop: nat, before: string)
    requires start <= q && q + 1 < stop < |m| && |m2| == |m| && before == m[start..q] && '\0' !in before
    requires '\0' !in m[q..stop]
    requires m2[start..q] == before && m2[q] == m[q + 1] && m2[q + 1..stop - 1] == m[q + 2..stop]
    ensures m2[start..q + 1] == before + [m[q + 1]] && '\0' !in before + [m[q + 1]]
    ensures '\0' !in m2[q + 1..stop - 1]
  {
    assert m[q..stop][1] == m[q + 1];
    assert m[q + 2..stop] == m[q..stop][2..];
  }

  /** *p2 = 0 at the closing quote. */
  lemma ReadingCloses(m: string, start: nat, nul: nat, line: string, p: nat, q: nat, stop: nat, done: string)
    requires Reading(m, start, nul, line, p, stop, done) && p <= q < stop && Plain(m[p..q]) && m[q] == '\"'
    ensures Unescape(line).Some? && HoldsString(m[q := '\0'], start, Unescape(line).value)
  {
    ReadingReaches(m, start, nul, line, p, q, stop, done);
    var value := m[start..q];
    assert Unescape(line) == Some(value) by { assert m[q..stop][0] == '\"' && value + [] == value; }
    assert m[q := '\0'][start..q] == value;
  }

  /** Memory is the same before start and from nul on. */
  ghost predicate Outside(m0: string, m: string, start: nat, nul: nat) {
    |m| == |m0| && start <= nul < |m| && m[..start] == m0[..start] && m[nul..] == m0[nul..]
  }

  lemma OutsideMoved(m0: string, m: string, start: nat, nul: nat, q: nat, stop: nat)
    requires Outside(m0, m, start, nul) && start <= q < stop <= nul
    ensures Outside(m0, Moved(m, q, stop - q), start, nul)
  {
    MovedParts(m, start, q, stop);
    var m2 := Moved(m, q, stop - q);
    assert m2[nul..] == m2[stop..][nul - stop..] && m[nul..] == m[stop..][nul - stop..];
  }

  /** The step at a backslash: the rest of the line moves over it. */
  method Drop(buf: array<char>, start: nat, ghost nul: nat, ghost line: string, ghost p: nat, q: nat,
              ghost stop: nat, ghost done: string, ghost m0: string)
    returns (ghost left: nat, ghost done': string)
    requires Reading(buf[..], start, nul, line, p, stop, done) && Outside(m0, buf[..], start, nul)
    requires p <= q < stop && Plain(buf[..][p..q]) && buf[q] == '\\'
    modifies buf
    ensures Reading(buf[..], start, nul, line, q + 1, left, done') && Outside(m0, buf[..], start, nul)
  {
    ghost var m := buf[..];
    ReadingReaches(m, start, nul, line, p, q, stop, done);
    OutsideMoved(m0, m, start, nul, q, stop);
    left, done' := ReadingDrops(m, start, nul, line, p, q, stop, done);
    var n := StrLen(buf, q, stop);
    ShiftLeft(buf, q, n);
  }

  /** The step at the closing quote. */
  method Close(buf: array<char>, start: nat, ghost nul: nat, ghost line: string, ghost p: nat, q: nat,
               ghost stop: nat, ghost done: string, ghost m0: string)
    requires Reading(buf[..], start, nul, line, p, stop, done) && Outside(m0, buf[..], start, nul)
    requires p <= q < stop && Plain(buf[..][p..q]) && buf[q] == '\"'
    modifies buf
    ensures Unescape(line).Some? && HoldsString(buf[..], start, Unescape(line).value)
    ensures Outside(m0, buf[..], start, nul)
  {
    ghost var m := buf[..];
    ReadingCloses(m, start, nul, line, p, q, stop, done);
    buf[q] := '\0';
    assert buf[..] == m[q := '\0'];
    assert m[q := '\0'][..start] == m[..start] && m[q := '\0'][nul..] == m[nul..];
  }

  /** The reading loop: escapes are removed by shifting the rest of the line left, and the closing
      quote is replaced by the terminator. */
  method UnescapeInPlace(buf: array<char>, start: nat, ghost line: string) returns (ok: bool)
    requires HoldsString(buf[..], start, line)
    modifies buf
    ensures ok <==> Unescape(line).Some?
    ensures ok ==> HoldsString(buf[..], start, Unescape(line).value)
    ensures Outside(old(buf[..]), buf[..], start, start + |line|)
  {
    var p := start;
    ghost var m0, nul := buf[..], start + |line|;
    ghost var stop: nat, done: string := nul, "";
    ReadingStarts(m0, start, line);
    while true
      invariant Reading(buf[..], start, nul, line, p, stop, done) && Outside(m0, buf[..], start, nul)
      decreases nul - p
    {
      var found := FindSpecial(buf, p, stop);
      if found.None? {
        ReadingFails(buf[..], start, nul, line, p, stop, done);
        return false;
      }
      var q := found.value;
      if buf[q] == '\"' {
        Close(buf, start, nul, line, p, q, stop, done, m0);
        return true;
      }
      stop, done := Drop(buf, start, nul, line, p, q, stop, done, m0);
      p := q + 1;
    }
  }

  /** The S_STRING case: the opening quote, then the loop. */
  method ReadString(buf: array<char>, start: nat, ghost line: string) returns (quoted: bool, ok: bool)
    requires HoldsString(buf[..], start, line)
    modifies buf
    ensures quoted <==> ReadValue(line) != NotQuoted
    ensures ok <==> ReadValue(line).Accepted?
    ensures ok ==> HoldsString(buf[..], start + 1, ReadValue(line).value)
    ensures !quoted ==> buf[..] == old(buf[..])
    ensures Outside(old(buf[..]), buf[..], start, start + |line|)
  {
    ghost var m := buf[..];
    assert m[start..start + |line|] == line;
    if buf[start] != '\"' {
      return false, false;
    }
    assert line != [] && line[0] == '\"';
    BehindTheQuote(m, start, line);
    ok := UnescapeInPlace(buf, start + 1, line[1..]);
    quoted := true;
    OutsideFromStart(m, buf[..], start, start + |line|);
  }

  lemma BehindTheQuote(m: string, start: nat, line: string)
    requires HoldsString(m, start, line) && line != []
    ensures HoldsString(m, start + 1, line[1..])
  {
    assert m[start + 1..start + |line|] == m[start..start + |line|][1..];
  }

  lemma OutsideFromStart(m0: string, m: string, start: nat, nul: nat)
    requires Outside(m0, m, start + 1, nul)
    ensures Outside(m0, m, start, nul)
  {
    assert m[..start] == m[..start + 1][..start] && m0[..start] == m0[..start + 1][..start];
  }

  lemma {:induction false} EscapeHasNoNul(s: string)
    requires '\0' !in s
    ensures '\0' !in EscapeBody(s)
  {
    if s != [] { EscapeHasNoNul(s[1..]); }
  }

  /** The line as it stands in the file: the quoted value, anything, and the terminator. */
  lemma WrittenLine(s: string, rest: string)
    requires '\0' !in s && '\0' !in rest
    ensures HoldsString(Escape(s) + rest + ['\0'], 0, Escape(s) + rest)
  {
    EscapeHasNoNul(s);
    var text := Escape(s) + rest;
    assert '\0' !in text;
    assert (text + ['\0'])[0..|text|] == text;
  }

  /** Writing a value and reading the line back leaves the value itself behind the opening quote,
      whatever follows it on the line. */
  method WriteAndRead(s: string, rest: string) returns (ok: bool, buf: array<char>)
    requires '\0' !in s && '\0' !in rest
    ensures ok && HoldsString(buf[..], 1, s)
  {
    var res, _ := EscapeStringValue(s);
    var text := res + rest + ['\0'];
    buf := new char[|text|](i requires 0 <= i < |text| => text[i]);
    assert buf[..] == text;
    WrittenLine(s, rest);
    UnescapeEscape(s, rest);
    var quoted;
    quoted, ok := ReadString(buf, 0, Escape(s) + rest);
  }
}
