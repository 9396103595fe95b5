/** The C library calls the wire format relies on: `strtok`, `strtoul`, `sprintf`.
    Their behaviour follows ISO C11 (N1570), sections 7.24.5.8, 7.22.1.4 and 7.21.6. */
module CStrings {
  import opened Arithmetic

  const NUL: char := '\0'

  /** The contents of a C string: everything before its terminator. */
  type CString = s: string | NUL !in s

  /** The C string that starts at the beginning of `b`. */
  function CStr(b: string): (s: CString)
    ensures s <= b
    ensures |s| < |b| ==> b[|s|] == NUL
  {
    if b == [] || b[0] == NUL then [] else [b[0]] + CStr(b[1..])
  }

  lemma {:induction false} CStrTerminated(s: CString, rest: string)
    ensures CStr(s + [NUL] + rest) == s
  {
    var b := s + [NUL] + rest;
    if s != [] {
      assert b[1..] == s[1..] + [NUL] + rest;
      CStrTerminated(s[1..], rest);
    }
  }

  lemma {:induction false} CStrOfClean(s: CString)
    ensures CStr(s) == s
  {
  }

  lemma CStrDepends(b: string, s: CString)
    requires |s| < |b| && b[..|s|] == s && b[|s|] == NUL
    ensures CStr(b) == s
  {
  }

  // ---- tokens ----

  /** The tokens that repeated `strtok` calls with the one-character delimiter `d` yield. */
  function Tokens(s: string, d: char): seq<string> {
    if s == [] then []
    else if s[0] == d then Tokens(s[1..], d)
    else [s[..Span(s, d)]] + Tokens(s[Span(s, d)..], d)
  }

  /** The length of the longest prefix without `d`. */
  function Span(s: string, d: char): (n: nat)
    ensures n <= |s| && d !in s[..n]
    ensures n < |s| ==> s[n] == d
    ensures s != [] && s[0] != d ==> n > 0
  {
    if s == [] || s[0] == d then 0
    else
      assert forall n :: 0 <= n < |s| ==> s[..n + 1] == [s[0]] + s[1..][..n];
      1 + Span(s[1..], d)
  }

  predicate Clean(w: string, d: char) {
    w != [] && d !in w
  }

  predicate AllClean(ws: seq<string>, d: char) {
    forall w :: w in ws ==> Clean(w, d)
  }

  lemma {:induction false} SpanIs(s: string, d: char, n: nat)
    requires n <= |s| && d !in s[..n] && (n < |s| ==> s[n] == d)
    ensures Span(s, d) == n
  {
  }

  lemma TokenThenDelimiter(w: string, d: char, rest: string)
    requires Clean(w, d)
    ensures Tokens(w + [d] + rest, d) == [w] + Tokens(rest, d)
  {
    var s := w + [d] + rest;
    assert s[..|w|] == w && s[|w|..] == [d] + rest;
    SpanIs(s, d, |w|);
    assert ([d] + rest)[1..] == rest;
  }

  lemma LastToken(w: string, d: char)
    requires Clean(w, d)
    ensures Tokens(w, d) == [w]
  {
    assert w[..|w|] == w;
    SpanIs(w, d, |w|);
  }

  /** Any text splits at any delimiter; with `LastToken` this says what the tokens of every text
      are, however many delimiters stand together or at its ends. */
  lemma {:induction false} TokensSplit(a: string, d: char, b: string)
    ensures Tokens(a + [d] + b, d) == Tokens(a, d) + Tokens(b, d)
    decreases |a|
  {
    var n := Span(a, d);
    if n == |a| {
      SplitBehindAll(a, d, b);
    } else {
      var w, rest := a[..n], a[n + 1..];
      TokensSplit(rest, d, b);
      Regroup(a, n, d, b);
      SplitBehindAll(w, d, rest);
      SplitBehindAll(w, d, rest + [d] + b);
      assert Tokens(w, d) + (Tokens(rest, d) + Tokens(b, d)) == Tokens(w, d) + Tokens(rest, d) + Tokens(b, d);
    }
  }

  lemma Regroup(a: string, n: nat, d: char, b: string)
    requires n < |a| && a[n] == d
    ensures a == a[..n] + [d] + a[n + 1..]
    ensures a + [d] + b == a[..n] + [d] + (a[n + 1..] + [d] + b)
  {
  }

  /** At most one token in front of the delimiter. */
  lemma SplitBehindAll(w: string, d: char, b: string)
    requires d !in w
    ensures Tokens(w + [d] + b, d) == Tokens(w, d) + Tokens(b, d)
  {
    if w == [] {
      assert (w + [d] + b)[1..] == b;
    } else {
      TokenThenDelimiter(w, d, b);
      LastToken(w, d);
    }
  }

  /** A token is never empty, never holds the delimiter, and is made of the text's characters. */
  lemma {:induction false} TokensAreClean(s: string, d: char)
    ensures AllClean(Tokens(s, d), d)
    ensures forall w, c :: w in Tokens(s, d) && c in w ==> c in s
    decreases |s|
  {
    if s != [] {
      if s[0] == d {
        TokensAreClean(s[1..], d);
      } else {
        TokensAreClean(s[Span(s, d)..], d);
      }
    }
  }

  function Join(ws: seq<string>, d: char): string {
    if ws == [] then []
    else if |ws| == 1 then ws[0]
    else ws[0] + [d] + Join(ws[1..], d)
  }

  /** Splitting undoes joining exactly for words that are non-empty and free of the delimiter. */
  lemma {:induction false} TokensOfJoin(ws: seq<string>, d: char)
    ensures Tokens(Join(ws, d), d) == ws <==> AllClean(ws, d)
  {
    TokensAreClean(Join(ws, d), d);
    if AllClean(ws, d) { CleanWordsSplit(ws, d); }
  }

  lemma {:induction false} CleanWordsSplit(ws: seq<string>, d: char)
    requires AllClean(ws, d)
    ensures Tokens(Join(ws, d), d) == ws
  {
    if |ws| == 1 {
      LastToken(ws[0], d);
    } else if ws != [] {
      CleanWordsSplit(ws[1..], d);
      TokenThenDelimiter(ws[0], d, Join(ws[1..], d));
    }
  }

  lemma {:induction false} JoinChars(ws: seq<string>, d: char, c: char)
    requires c in Join(ws, d)
    ensures c == d || exists w :: w in ws && c in w
  {
    if |ws| > 1 && c !in ws[0] && c != d {
      JoinChars(ws[1..], d, c);
      var w :| w in ws[1..] && c in w;
      assert w in ws;
    }
  }

  // ---- strtok, as the stateful call that writes into the caller's buffer ----

  /** The static state `strtok` keeps between calls. */
  class Tokenizer {
    var buf: array?<char>
    var pos: nat

    ghost predicate Valid()
      reads this, buf
    {
      buf != null ==> pos < buf.Length && NUL in buf[pos..]
    }

    /** The text still to be searched. */
    ghost function Rest(): CString
      requires Valid()
      reads this, buf
    {
      if buf == null then [] else CStr(buf[pos..])
    }

    constructor ()
      ensures Valid() && buf == null && Rest() == []
    {
      buf, pos := null, 0;
    }

    /** `strtok(s, d)`: forgets whatever was being split and starts on `s`. */
    method Start(s: array<char>, d: char) returns (tok: nat, found: bool)
      requires NUL in s[..] && d != NUL
      modifies this, s
      ensures buf == s && Step(old(s[..]), 0, d, tok, found)
    {
      assert s[0..] == s[..];
      buf, pos := s, 0;
      tok, found := Next(d);
    }

    /** What one search of a buffer `was` from `from` leaves behind: the first token of the
        remaining text, with the delimiter that ended it overwritten by a terminator. */
    ghost predicate Step(was: string, from: nat, d: char, tok: nat, found: bool)
      requires from <= |was|
      reads this, buf
    {
      && Valid() && buf != null && buf.Length == |was|
      && var toks := Tokens(CStr(was[from..]), d);
      && found == (toks != [])
      && (forall i :: 0 <= i < |was| ==> buf[i] == was[i] || (from <= i && was[i] == d && buf[i] == NUL))
      && from <= pos
      && if found
         then tok < buf.Length && CStr(buf[tok..]) == toks[0] && Tokens(Rest(), d) == toks[1..]
         else Rest() == []
    }

    /** `strtok(NULL, d)`. */
    method Next(d: char) returns (tok: nat, found: bool)
      requires Valid() && d != NUL && buf != null
      modifies this, buf
      ensures buf == old(buf) && Step(old(buf[..]), old(pos), d, tok, found)
    {
      tok := SkipDelimiters(buf, pos, d);
      if buf[tok] == NUL {
        pos := tok;
        NulEnds(buf[..], tok);
        return tok, false;
      }
      CutToken(tok, d);
      found := true;
    }

    method CutToken(tok: nat, d: char)
      requires buf != null && tok < buf.Length && NUL in buf[tok..]
      requires d != NUL && buf[tok] != d && buf[tok] != NUL
      modifies this, buf
      ensures buf == old(buf) && Valid() && tok < pos
      ensures forall i :: 0 <= i < buf.Length ==>
        buf[i] == old(buf[i]) || (tok <= i && old(buf[i]) == d && buf[i] == NUL)
      ensures Tokens(old(CStr(buf[tok..])), d) == [CStr(buf[tok..])] + Tokens(Rest(), d)
    {
      ghost var was := buf[..];
      ghost var end := Take(tok, d);
      TakenToken(was, tok, end, pos, d);
      assert forall i :: 0 <= i < buf.Length ==> buf[i] == buf[..][i];
    }

    /** `strtok(NULL, d)`, with the token copied out by `sprintf` or `strcpy`. */
    method NextField(d: char) returns (field: CString, found: bool)
      requires Valid() && d != NUL && buf != null
      modifies this, buf
      ensures buf == old(buf) && Valid()
      ensures Splits(old(Rest()), d, field, found)
    {
      var tok;
      tok, found := Next(d);
      field := if found then CStr(buf[tok..]) else [];
    }

    /** `strtok(s, d)`, with the token copied out. */
    method FirstField(s: array<char>, d: char) returns (field: CString, found: bool)
      requires NUL in s[..] && d != NUL
      modifies this, s
      ensures buf == s && Valid()
      ensures Splits(old(CStr(s[..])), d, field, found)
    {
      assert s[0..] == s[..];
      var tok;
      tok, found := Start(s, d);
      assert old(s[..])[0..] == old(s[..]);
      field := if found then CStr(s[tok..]) else [];
    }

    /** One field has been taken off `text`, and its other tokens are still to come. */
    ghost predicate Splits(text: string, d: char, field: string, found: bool)
      requires Valid()
      reads this, buf
    {
      var toks := Tokens(text, d);
      && found == (toks != [])
      && (found ==> field == toks[0])
      && Tokens(Rest(), d) == if found then toks[1..] else []
    }

    /** Ends the token that starts at `tok`, remembering where the next search begins. */
    method Take(tok: nat, d: char) returns (ghost end: nat)
      requires buf != null && tok < buf.Length && NUL in buf[tok..] && d != NUL
      modifies this, buf
      ensures buf == old(buf) && tok <= end < buf.Length && end - tok == Span(old(CStr(buf[tok..])), d)
      ensures old(buf[end]) == if end - tok == |old(CStr(buf[tok..]))| then NUL else d
      ensures pos == if old(buf[end]) == NUL then end else end + 1
      ensures buf[..] == old(buf[..])[end := NUL]
    {
      var at := TokenEnd(buf, tok, d);
      end := at;
      if buf[at] == NUL {
        pos := at;
      } else {
        buf[at] := NUL;
        pos := at + 1;
      }
    }

    /** The token cut out of `was`, and the text the next search starts on. */
    static lemma TakenToken(was: string, tok: nat, end: nat, pos: nat, d: char)
      requires tok <= end < |was| && NUL in was[tok..] && d != NUL && was[tok] != d && was[tok] != NUL
      requires end - tok == Span(CStr(was[tok..]), d)
      requires was[end] == if end - tok == |CStr(was[tok..])| then NUL else d
      requires pos == if was[end] == NUL then end else end + 1
      ensures var now := was[end := NUL];
        && tok < pos && NUL in now[pos..]
        && Tokens(CStr(was[tok..]), d) == [CStr(now[tok..])] + Tokens(CStr(now[pos..]), d)
    {
      FirstToken(was[tok..], end - tok, d);
      CutIs(was, tok, end);
      if was[end] == NUL {
        NulEnds(was[end := NUL], end);
      } else {
        assert was[end := NUL][pos..] == was[tok..][end - tok + 1..];
      }
    }

    /** Cutting `was` at `end` leaves its text up to there, and the part behind as it was. */
    static lemma CutIs(was: string, tok: nat, end: nat)
      requires tok <= end < |was| && NUL !in was[tok..][..end - tok]
      ensures var now := was[end := NUL];
        CStr(now[tok..]) == was[tok..][..end - tok]
    {
      var now := was[end := NUL];
      assert now[tok..][..end - tok] == was[tok..][..end - tok];
      CStrDepends(now[tok..], was[tok..][..end - tok]);
    }

    static method SkipDelimiters(b: array<char>, from: nat, d: char) returns (tok: nat)
      requires d != NUL && from <= b.Length && NUL in b[from..]
      ensures from <= tok < b.Length && b[tok] != d && NUL in b[tok..]
      ensures Tokens(CStr(b[from..]), d) == Tokens(CStr(b[tok..]), d)
    {
      TextEnds(b[..], from);
      tok := from;
      while b[tok] == d
        invariant from <= tok < b.Length && NUL in b[tok..]
        invariant Tokens(CStr(b[from..]), d) == Tokens(CStr(b[tok..]), d)
        decreases b.Length - tok
      {
        assert b[tok..][1..] == b[tok + 1..];
        tok := tok + 1;
        TextEnds(b[..], tok);
      }
    }

    static method TokenEnd(b: array<char>, tok: nat, d: char) returns (end: nat)
      requires d != NUL && tok <= b.Length && NUL in b[tok..]
      ensures tok <= end < b.Length && end - tok == Span(CStr(b[tok..]), d)
      ensures b[end] == if end - tok == |CStr(b[tok..])| then NUL else d
    {
      ghost var last :| 0 <= last < |b[tok..]| && b[tok..][last] == NUL;
      end := tok;
      while b[end] != NUL && b[end] != d
        invariant tok <= end <= tok + last
        invariant forall i :: tok <= i < end ==> b[i] != NUL && b[i] != d
        decreases tok + last - end
      {
        end := end + 1;
      }
      TokenEndsAt(b[tok..], end - tok, d);
    }

    static lemma TokenEndsAt(b: string, n: nat, d: char)
      requires n < |b| && (b[n] == NUL || b[n] == d) && d != NUL
      requires forall i :: 0 <= i < n ==> b[i] != NUL && b[i] != d
      ensures Span(CStr(b), d) == n
      ensures b[n] == if n == |CStr(b)| then NUL else d
    {
    }

    /** What `strtok` finds once it has a token's bounds, before it writes anything. */
    static lemma FirstToken(b: string, n: nat, d: char)
      requires NUL in b && d != NUL && b[0] != d && b[0] != NUL && n == Span(CStr(b), d)
      ensures 0 < n < |b| && NUL !in b[..n]
      ensures Tokens(CStr(b), d) == [b[..n]] + if n == |CStr(b)| then [] else Tokens(CStr(b[n + 1..]), d)
      ensures n < |CStr(b)| ==> NUL in b[n + 1..]
    {
      var t := CStr(b);
      TextPrefix(b, n);
      SplitFirst(t, n, d);
      if n < |t| { TextAfter(b, n + 1); }
    }

    static lemma TextPrefix(b: string, n: nat)
      requires NUL in b && b[0] != NUL && n <= |CStr(b)|
      ensures CStr(b) != [] && CStr(b)[0] == b[0] && n < |b| && b[..n] == CStr(b)[..n]
    {
    }

    static lemma {:induction false} TextAfter(b: string, to: nat)
      requires NUL in b && to <= |CStr(b)|
      ensures to <= |b| && NUL in b[to..] && CStr(b[to..]) == CStr(b)[to..]
    {
      if to > 0 {
        BehindHead(b);
        TextAfter(b[1..], to - 1);
        assert b[1..][to - 1..] == b[to..] && CStr(b[1..])[to - 1..] == CStr(b)[to..];
      }
    }

    static lemma BehindHead(b: string)
      requires NUL in b && CStr(b) != []
      ensures NUL in b[1..] && CStr(b)[1..] == CStr(b[1..])
    {
      assert b == [b[0]] + b[1..];
    }

    static lemma SplitFirst(t: string, n: nat, d: char)
      requires t != [] && t[0] != d && n == Span(t, d)
      ensures n > 0 && Tokens(t, d) == [t[..n]] + if n == |t| then [] else Tokens(t[n + 1..], d)
    {
    }

    static lemma TextEnds(b: string, from: nat)
      requires from <= |b| && NUL in b[from..]
      ensures from + |CStr(b[from..])| < |b| && b[from + |CStr(b[from..])|] == NUL
      ensures forall i :: 0 <= i < |CStr(b[from..])| ==> CStr(b[from..])[i] == b[from + i]
    {
    }

    static lemma NulEnds(b: string, at: nat)
      requires at < |b| && b[at] == NUL
      ensures CStr(b[at..]) == [] && NUL in b[at..]
    {
    }
  }

  // ---- numbers ----

  type Port = p: nat | p < 0x1_0000

  function Digit(n: nat): char
    requires n < 16
  {
    if n < 10 then '0' + n as char else 'a' + (n - 10) as char
  }

  /** A number written in a base, most significant digit first. */
  function Numeral(n: nat, base: nat): string
    requires 2 <= base <= 16
  {
    if n < base then [Digit(n)]
    else
      QuotientShrinks(n, base);
      Numeral(n / base, base) + [Digit(n % base)]
  }

  /** `%d` of a non-negative number. */
  function Decimal(n: nat): CString {
    NumeralHasNoNul(n, 10);
    Numeral(n, 10)
  }

  lemma NumeralHasNoNul(n: nat, base: nat)
    requires 2 <= base <= 16
    ensures NUL !in Numeral(n, base)
  {
    forall i | 0 <= i < |Numeral(n, base)|
      ensures Numeral(n, base)[i] != NUL
    {
      NumeralDigits(n, base, i);
    }
  }

  lemma {:induction false} NumeralDigits(n: nat, base: nat, i: nat)
    requires 2 <= base <= 16
    ensures Numeral(n, base) != []
    ensures i < |Numeral(n, base)| ==> DigitValue(Numeral(n, base)[i]) < base && Numeral(n, base)[i] != NUL
  {
    if n >= base {
      QuotientShrinks(n, base);
      NumeralDigits(n / base, base, i);
      DigitIsItsValue(n % base);
    } else {
      DigitIsItsValue(n);
    }
  }

  lemma DigitIsItsValue(d: nat)
    requires d < 16
    ensures DigitValue(Digit(d)) == d && Digit(d) != NUL
  {
  }

  lemma DecimalDigits(n: nat, c: char)
    requires c in Decimal(n)
    ensures '0' <= c <= '9'
  {
    var i :| 0 <= i < |Decimal(n)| && Decimal(n)[i] == c;
    NumeralDigits(n, 10, i);
  }

  predicate IsSpace(c: char) {
    c == ' ' || '\t' <= c <= '\r'
  }

  function SkipSpace(s: string): string {
    if s != [] && IsSpace(s[0]) then SkipSpace(s[1..]) else s
  }

  /** The value of `c` as a digit, or 36 when it is none. */
  function DigitValue(c: char): nat {
    if '0' <= c <= '9' then (c - '0') as nat
    else if 'a' <= c <= 'z' then 10 + (c - 'a') as nat
    else if 'A' <= c <= 'Z' then 10 + (c - 'A') as nat
    else 36
  }

  /** Reads digits of `base` after `acc` until the first character that is none. */
  function Digits(s: string, base: nat, acc: nat): nat {
    if s == [] || DigitValue(s[0]) >= base then acc
    else Digits(s[1..], base, acc * base + DigitValue(s[0]))
  }

  const ULONG_MAX: nat := 0xFFFF_FFFF_FFFF_FFFF

  /** The number at the start of `u`, in the base its first characters choose. */
  function BaseZero(u: string): nat {
    if |u| > 2 && u[0] == '0' && (u[1] == 'x' || u[1] == 'X') && DigitValue(u[2]) < 16 then Digits(u[2..], 16, 0)
    else if u != [] && u[0] == '0' then Digits(u, 8, 0)
    else Digits(u, 10, 0)
  }

  /** `strtoul(s, NULL, 0)` with a 64-bit unsigned long. */
  function StrToUl(s: string): (n: nat)
    ensures n <= ULONG_MAX
  {
    var t := SkipSpace(s);
    var negative := t != [] && t[0] == '-';
    var u := if t != [] && (t[0] == '-' || t[0] == '+') then t[1..] else t;
    var value := BaseZero(u);
    if value > ULONG_MAX then ULONG_MAX
    else if negative && value > 0 then ULONG_MAX + 1 - value
    else value
  }

  /** `(in_port_t) strtoul(s, NULL, 0)`. */
  function ToPort(s: string): Port {
    StrToUl(s) % 0x1_0000
  }

  lemma {:induction false} DigitsOfAppend(s: string, last: char, base: nat, acc: nat)
    requires forall i :: 0 <= i < |s| ==> DigitValue(s[i]) < base
    requires DigitValue(last) < base
    ensures Digits(s + [last], base, acc) == Digits(s, base, acc) * base + DigitValue(last)
  {
    var t := s + [last];
    if s == [] {
      assert t[1..] == [];
    } else {
      assert t[1..] == s[1..] + [last];
      DigitsOfAppend(s[1..], last, base, acc * base + DigitValue(s[0]));
    }
  }

  lemma {:induction false} DigitsOfNumeral(n: nat, base: nat)
    requires 2 <= base <= 16
    ensures Digits(Numeral(n, base), base, 0) == n
    ensures Numeral(n, base) != [] && (n > 0 ==> Numeral(n, base)[0] != '0')
  {
    if n < base {
      assert Numeral(n, base)[1..] == [];
    } else {
      var q := n / base;
      QuotientShrinks(n, base);
      DigitsOfNumeral(q, base);
      forall i | 0 <= i < |Numeral(q, base)|
        ensures DigitValue(Numeral(q, base)[i]) < base
      {
        NumeralDigits(q, base, i);
      }
      DigitsOfAppend(Numeral(q, base), Digit(n % base), base, 0);
    }
  }

  lemma NoBlanks(s: string)
    requires s != [] && DigitValue(s[0]) < 16
    ensures SkipSpace(s) == s && s[0] != '-' && s[0] != '+'
  {
  }

  function Saturated(n: nat): (r: nat)
    ensures r <= 0xFFFF_FFFF_FFFF_FFFF && (n <= 0xFFFF_FFFF_FFFF_FFFF ==> r == n)
    ensures n > 0xFFFF_FFFF_FFFF_FFFF ==> r == 0xFFFF_FFFF_FFFF_FFFF
  {
    if n > ULONG_MAX then ULONG_MAX else n
  }

  lemma DecimalInBaseZero(n: nat)
    ensures BaseZero(Decimal(n)) == n
  {
    DigitsOfNumeral(n, 10);
    NumeralDigits(n, 10, 0);
    if n == 0 { assert Decimal(n)[1..] == []; }
  }

  /** Both cases of a hexadecimal digit are read. */
  lemma HexDigits(d: nat)
    requires d < 16
    ensures DigitValue("0123456789abcdef"[d]) == DigitValue("0123456789ABCDEF"[d]) == d
  {
  }

  /** The digits of a number in print. */
  lemma DecimalInPrint(n: nat, d: nat)
    requires d < 10
    ensures Decimal(d) == ["0123456789"[d]]
    ensures n > 0 ==> Decimal(10 * n + d) == Decimal(n) + ["0123456789"[d]]
  {
  }

  /** A decimal number is never taken for an octal or hexadecimal one, although base 0 leaves
      the choice to its first characters. */
  lemma DecimalIsReadAsDecimal(n: nat)
    ensures StrToUl(Decimal(n)) == Saturated(n)
  {
    DecimalInBaseZero(n);
    NumeralDigits(n, 10, 0);
    NoBlanks(Decimal(n));
  }

  /** A leading zero switches to octal, so a zero-padded port means another port. */
  lemma LeadingZeroIsOctal(n: nat)
    ensures StrToUl("0" + Numeral(n, 8)) == Saturated(n)
  {
    var s, t := "0" + Numeral(n, 8), Numeral(n, 8);
    DigitsOfNumeral(n, 8);
    NumeralDigits(n, 8, 0);
    NoBlanks(s);
    assert s[1..] == t && DigitValue(t[0]) < 8;
    assert Digits(s, 8, 0) == Digits(t, 8, 0);
  }

  lemma HexPrefixIsHexadecimal(n: nat)
    ensures StrToUl("0x" + Numeral(n, 16)) == StrToUl("0X" + Numeral(n, 16)) == Saturated(n)
  {
    HexPrefix('x', n);
    HexPrefix('X', n);
    assert "0x" + Numeral(n, 16) == ['0', 'x'] + Numeral(n, 16);
    assert "0X" + Numeral(n, 16) == ['0', 'X'] + Numeral(n, 16);
  }

  lemma HexPrefix(x: char, n: nat)
    requires x == 'x' || x == 'X'
    ensures StrToUl(['0', x] + Numeral(n, 16)) == Saturated(n)
  {
    var s, t := ['0', x] + Numeral(n, 16), Numeral(n, 16);
    DigitsOfNumeral(n, 16);
    NumeralDigits(n, 16, 0);
    NoBlanks(s);
    assert s[2..] == t && s[2] == t[0];
  }

  /** A port number of any size is cut to 16 bits. */
  lemma PortWraps(n: nat)
    requires n <= 0xFFFF_FFFF_FFFF_FFFF
    ensures ToPort(Decimal(n)) == n % 65536
  {
    DecimalIsReadAsDecimal(n);
  }

  lemma PortRoundTrip(p: Port)
    ensures ToPort(Decimal(p)) == p
  {
    PortWraps(p);
  }

  lemma {:induction false} DecimalLength(n: nat, k: nat, bound: nat)
    requires k > 0 && n < bound && bound == Pow(10, k)
    ensures |Decimal(n)| <= k
  {
    if n >= 10 {
      var rest := Pow(10, k - 1);
      assert bound == 10 * rest && n / 10 < rest;
      DecimalLength(n / 10, k - 1, rest);
    }
  }

  /** Leading white space is skipped: blank, tab, line feed, vertical tab, form feed, return. */
  lemma BlanksAreSkipped(c: char, s: string)
    requires c in {' ', '\t', '\n', '\U{B}', '\U{C}', '\r'}
    ensures StrToUl([c] + s) == StrToUl(s)
  {
    assert ([c] + s)[1..] == s;
  }

  /** A sign is read; a negative number wraps around. */
  lemma SignsAreRead(n: nat)
    requires n <= 0xFFFF_FFFF_FFFF_FFFF
    ensures StrToUl(['+'] + Decimal(n)) == n
    ensures StrToUl(['-'] + Decimal(n)) == if n == 0 then 0 else 0x1_0000_0000_0000_0000 - n
  {
    DecimalInBaseZero(n);
    assert (['+'] + Decimal(n))[1..] == (['-'] + Decimal(n))[1..] == Decimal(n);
  }

  /** Reading stops at the first character that is no digit. */
  lemma {:induction false} DigitsStop(s: string, rest: string, base: nat, acc: nat)
    requires rest != [] ==> DigitValue(rest[0]) >= base
    requires forall i :: 0 <= i < |s| ==> DigitValue(s[i]) < base
    ensures Digits(s + rest, base, acc) == Digits(s, base, acc)
  {
    if s == [] {
      assert s + rest == rest;
    } else {
      assert (s + rest)[1..] == s[1..] + rest;
      DigitsStop(s[1..], rest, base, acc * base + DigitValue(s[0]));
    }
  }

  lemma RestIsIgnored(n: nat, rest: string)
    requires 0 < n <= 0xFFFF_FFFF_FFFF_FFFF && (rest != [] ==> !('0' <= rest[0] <= '9'))
    ensures StrToUl(Decimal(n) + rest) == n
  {
    var s := Decimal(n);
    DigitsOfNumeral(n, 10);
    NumeralDigits(n, 10, 0);
    NoBlanks(s + rest);
    forall i | 0 <= i < |s|
      ensures DigitValue(s[i]) < 10
    {
      NumeralDigits(n, 10, i);
    }
    DigitsStop(s, rest, 10, 0);
  }

  /** A zero stands alone unless an octal digit, or an x and a hexadecimal one, come behind it. */
  lemma ZeroStandsAlone(rest: string)
    requires rest != [] ==> !('0' <= rest[0] <= '7')
    requires |rest| > 1 && rest[0] in {'x', 'X'} ==>
      !('0' <= rest[1] <= '9') && !('a' <= rest[1] <= 'f') && !('A' <= rest[1] <= 'F')
    ensures StrToUl(['0'] + rest) == 0
  {
    var s := ['0'] + rest;
    assert s[1..] == rest && (|rest| > 1 ==> s[1] == rest[0] && s[2] == rest[1]);
    assert Digits(s, 8, 0) == Digits(rest, 8, 0) == 0;
  }

  /** What is no number at all is read as zero. */
  lemma NoNumber(s: string)
    requires s != [] ==>
      !('0' <= s[0] <= '9') && s[0] !in {'+', '-', ' ', '\t', '\n', '\U{B}', '\U{C}', '\r'}
    ensures StrToUl(s) == 0
  {
  }

  // ---- writing into buffers ----

  /** `sprintf(dst + off, "%s", text)`: the text, its terminator, and nothing else. */
  method Sprintf(dst: array<char>, off: nat, text: CString) returns (n: nat)
    requires off + |text| < dst.Length
    modifies dst
    ensures n == |text|
    ensures dst[..] == old(dst[..off]) + text + [NUL] + old(dst[off + |text| + 1..])
    ensures dst[..off + n] == old(dst[..off]) + text && dst[off + n] == NUL
  {
    ghost var was := dst[..];
    forall i | 0 <= i < |text| {
      dst[off + i] := text[i];
    }
    dst[off + |text|] := NUL;
    n := |text|;
    assert dst[..] == was[..off] + text + [NUL] + was[off + |text| + 1..];
    assert dst[..off + n] == dst[..][..off + n];
  }

  /** `strcat(dst, src)`. */
  method Strcat(dst: array<char>, src: CString)
    requires NUL in dst[..] && |CStr(dst[..])| + |src| < dst.Length
    modifies dst
    ensures CStr(dst[..]) == old(CStr(dst[..])) + src
  {
    ghost var s := CStr(dst[..]);
    Tokenizer.TextEnds(dst[..], 0);
    assert dst[0..] == dst[..];
    var end := 0;
    while dst[end] != NUL
      invariant end <= |s|
      decreases |s| - end
    {
      end := end + 1;
    }
    var _ := Sprintf(dst, end, src);
    assert dst[..|s + src|] == s + src;
    CStrDepends(dst[..], s + src);
  }
}
