/** Moving a file word by word: `fscanf("%s")` on one side, `fprintf("%s ")` on the other.
    The scan follows ISO C11 (N1570), section 7.21.6.2. */
module FileTransfer {
  import opened CStrings
  import opened Options

  const WORD_LEN: nat := 32

  // ---- words ----

  /** The length of the longest prefix without white space. */
  function WordLength(s: string): (n: nat)
    ensures n <= |s|
  {
    if s == [] || IsSpace(s[0]) then 0 else 1 + WordLength(s[1..])
  }

  lemma {:induction false} WordLengthIs(s: string, n: nat)
    requires n <= |s| && (forall i :: 0 <= i < n ==> !IsSpace(s[i])) && (n < |s| ==> IsSpace(s[n]))
    ensures WordLength(s) == n
  {
    if n > 0 { WordLengthIs(s[1..], n - 1); }
  }

  lemma {:induction false} WordLengthEnds(s: string)
    ensures forall i :: 0 <= i < WordLength(s) ==> !IsSpace(s[i])
    ensures WordLength(s) < |s| ==> IsSpace(s[WordLength(s)])
  {
    if s != [] && !IsSpace(s[0]) { WordLengthEnds(s[1..]); }
  }

  /** What repeated `fscanf("%s")` calls read from a text. */
  function Words(s: string): seq<string>
    decreases |s|
  {
    if s == [] then []
    else if IsSpace(s[0]) then Words(s[1..])
    else [s[..WordLength(s)]] + Words(s[WordLength(s)..])
  }

  /** Words end at blank, tab, line feed, vertical tab, form feed and return. */
  lemma {:induction false} WordsSplit(a: string, c: char, b: string)
    requires c in {' ', '\t', '\n', '\U{B}', '\U{C}', '\r'}
    ensures Words(a + [c] + b) == Words(a) + Words(b)
    decreases |a|
  {
    var s := a + [c] + b;
    if a == [] {
      assert s[1..] == b;
    } else if IsSpace(a[0]) {
      assert s[1..] == a[1..] + [c] + b;
      WordsSplit(a[1..], c, b);
    } else {
      var n := WordLength(a);
      assert s[..n] == a[..n] && s[n..] == a[n..] + [c] + b;
      WordLengthEnds(a);
      WordLengthIs(s, n);
      WordsSplit(a[n..], c, b);
    }
  }

  /** And nowhere else. */
  lemma OneWord(s: string)
    requires s != [] && forall i :: 0 <= i < |s| ==> s[i] !in {' ', '\t', '\n', '\U{B}', '\U{C}', '\r'}
    ensures Words(s) == [s]
  {
    WordThenRest(s, []);
    assert s + [] == s && Words([]) == [];
  }

  predicate IsWord(w: string) {
    w != [] && NoSpace(w)
  }

  predicate NoSpace(w: string) {
    forall i :: 0 <= i < |w| ==> !IsSpace(w[i])
  }

  lemma {:induction false} WordsAreWords(s: string)
    ensures forall i :: 0 <= i < |Words(s)| ==> IsWord(Words(s)[i])
    decreases |s|
  {
    if s != [] {
      if IsSpace(s[0]) {
        WordsAreWords(s[1..]);
      } else {
        WordLengthEnds(s);
        WordsAreWords(s[WordLength(s)..]);
      }
    }
  }

  /** What the words look like once each has been printed with `%s` and a blank. */
  function Render(ws: seq<string>): string {
    if ws == [] then [] else ws[0] + " " + Render(ws[1..])
  }

  /** Each word as a C string: cut at its first terminator, if the file held any. */
  function Cut(ws: seq<string>): (r: seq<string>)
    ensures |r| == |ws| && forall i :: 0 <= i < |r| ==> r[i] == CStr(ws[i])
  {
    seq(|ws|, i requires 0 <= i < |ws| => CStr(ws[i]))
  }

  function NonEmpty(ws: seq<string>): seq<string> {
    if ws == [] then []
    else if ws[0] == [] then NonEmpty(ws[1..])
    else [ws[0]] + NonEmpty(ws[1..])
  }

  /** What `retrieve_file` prints between its markers, and what `download_file` writes. */
  function Body(text: string): string {
    Render(Cut(Words(text)))
  }

  /** Whatever stands between the words of a file, in print and in a copy it is one blank, also
      behind the last word. */
  lemma BodyInPrint(a: string, c: char, b: string)
    requires IsWord(a) && IsWord(b) && NUL !in a && NUL !in b
    requires c in {' ', '\t', '\n', '\U{B}', '\U{C}', '\r'}
    ensures Body(a + [c] + b) == a + " " + b + " " && Body([]) == []
  {
    TwoWords(a, c, b);
    CStrOfClean(a);
    CStrOfClean(b);
    assert Cut([a, b]) == [a, b];
    RenderTwo(a, b);
  }

  lemma TwoWords(a: string, c: char, b: string)
    requires IsWord(a) && IsWord(b) && c in {' ', '\t', '\n', '\U{B}', '\U{C}', '\r'}
    ensures Words(a + [c] + b) == [a, b]
  {
    WordsSplit(a, c, b);
    WordThenRest(a, []);
    WordThenRest(b, []);
    assert a + [] == a && b + [] == b && Words([]) == [];
  }

  lemma RenderTwo(a: string, b: string)
    ensures Render([a, b]) == a + " " + b + " "
  {
    RenderAppend([], a);
    RenderAppend([a], b);
    assert [] + [a] == [a] && [a] + [b] == [a, b];
  }

  // ---- what survives ----

  lemma WordThenBlank(w: string, rest: string)
    requires NoSpace(w)
    ensures Words(w + " " + rest) == (if w == [] then [] else [w]) + Words(rest)
  {
    var s := w + " " + rest;
    if w == [] {
      assert s[1..] == rest;
    } else {
      WordLengthIs(s, |w|);
      assert s[..|w|] == w && s[|w|..] == " " + rest;
      assert (" " + rest)[1..] == rest;
    }
  }

  lemma {:induction false} WordsOfRender(ws: seq<string>)
    requires forall i :: 0 <= i < |ws| ==> NoSpace(ws[i])
    ensures Words(Render(ws)) == NonEmpty(ws)
  {
    if ws != [] {
      WordThenBlank(ws[0], Render(ws[1..]));
      WordsOfRender(ws[1..]);
      assert [] + Words(Render(ws[1..])) == Words(Render(ws[1..]));
    }
  }

  lemma {:induction false} NonEmptySize(ws: seq<string>)
    ensures |NonEmpty(ws)| <= |ws|
    ensures |Render(NonEmpty(ws))| <= |Render(ws)|
    ensures (forall i :: 0 <= i < |ws| ==> ws[i] != []) ==> NonEmpty(ws) == ws
    ensures (exists i :: 0 <= i < |ws| && ws[i] == []) ==>
      |NonEmpty(ws)| < |ws| && |Render(NonEmpty(ws))| < |Render(ws)|
  {
    if ws != [] {
      NonEmptySize(ws[1..]);
      if ws[0] != [] {
        assert NonEmpty(ws)[1..] == NonEmpty(ws[1..]);
        if i :| 0 <= i < |ws| && ws[i] == [] { assert ws[1..][i - 1] == []; }
      }
    }
  }

  lemma BodyWords(text: string)
    ensures Words(Body(text)) == NonEmpty(Cut(Words(text)))
  {
    WordsAreWords(text);
    forall i | 0 <= i < |Words(text)|
      ensures NoSpace(CStr(Words(text)[i]))
    {
      assert IsWord(Words(text)[i]);
    }
    WordsOfRender(Cut(Words(text)));
  }

  lemma {:induction false} NulIsInAWord(text: string) returns (i: nat)
    requires NUL in text
    ensures i < |Words(text)| && NUL in Words(text)[i]
    decreases |text|
  {
    var n := WordLength(text);
    if IsSpace(text[0]) {
      assert text == [text[0]] + text[1..];
      i := NulIsInAWord(text[1..]);
    } else if NUL in text[..n] {
      i := 0;
    } else {
      assert text == text[..n] + text[n..];
      i := NulIsInAWord(text[n..]);
      i := i + 1;
    }
  }

  lemma {:induction false} WordsComeFromText(text: string, i: nat)
    requires i < |Words(text)|
    ensures forall c :: c in Words(text)[i] ==> c in text
    decreases |text|
  {
    if IsSpace(text[0]) {
      WordsComeFromText(text[1..], i);
    } else if i > 0 {
      WordsComeFromText(text[WordLength(text)..], i - 1);
    }
  }

  lemma CleanWordsSurvive(text: string)
    requires NUL !in text
    ensures Cut(Words(text)) == Words(text) && NonEmpty(Words(text)) == Words(text)
  {
    var ws := Words(text);
    WordsAreWords(text);
    NonEmptySize(ws);
    forall i | 0 <= i < |ws|
      ensures CStr(ws[i]) == ws[i] && ws[i] != []
    {
      WordsComeFromText(text, i);
      CStrOfClean(ws[i]);
      assert IsWord(ws[i]);
    }
    assert Cut(ws) == ws;
  }

  /** The downloaded file has the same words as the source exactly when the source holds no
      terminator byte; for such a file every word and its place survive. */
  lemma WordsSurvive(text: string)
    ensures Words(Body(text)) == Words(text) <==> NUL !in text
  {
    BodyWords(text);
    if NUL !in text {
      CleanWordsSurvive(text);
    } else {
      var i := NulIsInAWord(text);
      CutWordIsLost(Words(text), i);
    }
  }

  lemma CutWordIsLost(ws: seq<string>, i: nat)
    requires i < |ws| && NUL in ws[i]
    ensures NonEmpty(Cut(ws)) != ws
  {
    CutsAreCStrings(ws);
    var f := NonEmpty(Cut(ws));
    if i < |f| { assert CStr(f[i]) == Cut(f)[i] == f[i]; }
  }

  predicate StartsWithNul(w: string) {
    w != [] && w[0] == NUL
  }

  /** A copy prints like its original, and a copy of a copy is the copy byte for byte, exactly
      when no word of the original starts with a terminator byte. */
  lemma CopyIsStable(text: string)
    ensures Body(Body(text)) == Body(text) <==> forall i :: 0 <= i < |Words(text)| ==> !StartsWithNul(Words(text)[i])
  {
    var cs := Cut(Words(text));
    BodyWords(text);
    CutsAreCStrings(Words(text));
    NonEmptySize(cs);
    EmptyCuts(text);
  }

  lemma EmptyCuts(text: string)
    ensures forall i :: 0 <= i < |Words(text)| ==> (Cut(Words(text))[i] == [] <==> StartsWithNul(Words(text)[i]))
  {
  }

  lemma {:induction false} CutsAreCStrings(ws: seq<string>)
    ensures Cut(NonEmpty(Cut(ws))) == NonEmpty(Cut(ws))
  {
    NonEmptyKeeps(Cut(ws));
    var f := NonEmpty(Cut(ws));
    forall i | 0 <= i < |f|
      ensures CStr(f[i]) == f[i]
    {
      CStrOfClean(f[i]);
    }
  }

  lemma {:induction false} NonEmptyKeeps(cs: seq<string>)
    requires forall i :: 0 <= i < |cs| ==> NUL !in cs[i]
    ensures forall i :: 0 <= i < |NonEmpty(cs)| ==> NUL !in NonEmpty(cs)[i]
  {
    if cs != [] { NonEmptyKeeps(cs[1..]); }
  }

  // ---- the code that moves the words ----

  /** An open file: its text and the read position. */
  class InFile {
    const text: string
    var pos: nat

    constructor (text: string)
      ensures this.text == text && pos == 0
    {
      this.text := text;
      pos := 0;
    }

    method SkipBlanks()
      requires pos <= |text|
      modifies this`pos
      ensures old(pos) <= pos <= |text| && (pos < |text| ==> !IsSpace(text[pos]))
      ensures Words(text[pos..]) == Words(text[old(pos)..])
    {
      while pos < |text| && IsSpace(text[pos])
        invariant old(pos) <= pos <= |text| && Words(text[pos..]) == Words(text[old(pos)..])
        decreases |text| - pos
      {
        assert text[pos..][1..] == text[pos + 1..];
        pos := pos + 1;
      }
    }

    method MeasureWord() returns (end: nat)
      requires pos <= |text|
      ensures pos <= end <= |text| && end - pos == WordLength(text[pos..])
    {
      end := pos;
      while end < |text| && !IsSpace(text[end])
        invariant pos <= end <= |text| && forall i :: pos <= i < end ==> !IsSpace(text[i])
        decreases |text| - end
      {
        end := end + 1;
      }
      WordLengthIs(text[pos..], end - pos);
    }

    /** `fscanf(file, "%s", buf)`: 1 and the next word, or -1 at the end of the file. */
    method ScanWord(buf: array<char>) returns (result: int)
      requires pos <= |text| && Fits(text[pos..], buf.Length)
      modifies this`pos, buf
      ensures pos <= |text| && Scanned(Words(old(text[pos..])), Words(text[pos..]), buf[..], result)
    {
      SkipBlanks();
      ghost var t := text[pos..];
      if pos == |text| {
        return -1;
      }
      var end := MeasureWord();
      assert Words(t) == [t[..WordLength(t)]] + Words(t[WordLength(t)..]);
      assert Words(t)[0] == text[pos..end] && t[WordLength(t)..] == text[end..];
      StoreWord(buf, text[pos..end]);
      pos := end;
      return 1;
    }

    method Rewind()
      modifies this`pos
      ensures pos == 0
    {
      pos := 0;
    }
  }

  /** One scan: the first of the words `was` is in the buffer, and `now` are left. */
  ghost predicate Scanned(was: seq<string>, now: seq<string>, buf: string, result: int) {
    && result == (if was == [] then -1 else 1)
    && (was != [] ==> now == was[1..] && CStr(buf) == CStr(was[0]))
  }

  /** Every word of the text fits the buffer with its terminator. */
  ghost predicate Fits(text: string, limit: nat) {
    forall i :: 0 <= i < |Words(text)| ==> |Words(text)[i]| < limit
  }

  /** The word buffer takes words of up to 31 characters. */
  lemma WordsThatFit(text: string)
    ensures Fits(text, WORD_LEN) <==> forall w :: w in Words(text) ==> |w| <= 31
  {
    assert Fits(text, WORD_LEN) ==> forall i :: 0 <= i < |Words(text)| ==> |Words(text)[i]| <= 31;
  }

  /** Stores a word and its terminator; what was behind stays. */
  method StoreWord(buf: array<char>, w: string)
    requires |w| < buf.Length
    modifies buf
    ensures CStr(buf[..]) == CStr(w)
  {
    forall i | 0 <= i < |w| {
      buf[i] := w[i];
    }
    buf[|w|] := NUL;
    assert buf[..][..|w|] == w && buf[..][|w|] == NUL;
    StoredWord(buf[..], w);
  }

  lemma {:induction false} StoredWord(b: string, w: string)
    requires |w| < |b| && b[..|w|] == w && b[|w|] == NUL
    ensures CStr(b) == CStr(w)
  {
  }

  lemma FitsRest(text: string, rest: string, k: nat)
    requires Fits(text, WORD_LEN) && k <= |Words(text)| && Words(rest) == Words(text)[k..]
    ensures Fits(rest, WORD_LEN)
  {
  }

  /** The count pass: how many words `fscanf` finds. */
  method CountWords(file: InFile, wordbuf: array<char>) returns (wordcount: nat)
    requires file.pos == 0 && wordbuf.Length == WORD_LEN && Fits(file.text, WORD_LEN)
    modifies file`pos, wordbuf
    ensures wordcount == |Words(file.text)|
  {
    ghost var ws := Words(file.text);
    assert file.text[0..] == file.text;
    wordcount := 0;
    var result := file.ScanWord(wordbuf);
    while result > 0
      invariant file.pos <= |file.text| && wordcount <= |ws| && (result == 1 || result == -1)
      invariant result > 0 <==> wordcount < |ws|
      invariant result > 0 ==> Words(file.text[file.pos..]) == ws[wordcount + 1..]
      decreases |ws| - wordcount
    {
      FitsRest(file.text, file.text[file.pos..], wordcount + 1);
      wordcount := wordcount + 1;
      result := file.ScanWord(wordbuf);
    }
  }

  /** A frame is the whole word buffer; behind the word's terminator it may hold anything. */
  ghost predicate Serves(ws: seq<string>, frames: seq<string>) {
    |frames| == |ws| && forall i :: 0 <= i < |ws| ==> |frames[i]| == WORD_LEN && CStr(frames[i]) == CStr(ws[i])
  }

  /** The send pass. */
  method SendWords(file: InFile, wordbuf: array<char>, wordcount: nat) returns (frames: seq<string>)
    requires file.pos == 0 && wordbuf.Length == WORD_LEN && Fits(file.text, WORD_LEN)
    requires wordcount == |Words(file.text)|
    modifies file`pos, wordbuf
    ensures Serves(Words(file.text), frames)
  {
    ghost var ws := Words(file.text);
    assert file.text[0..] == file.text;
    frames := [];
    for i := 0 to wordcount
      invariant file.pos <= |file.text| && Words(file.text[file.pos..]) == ws[i..]
      invariant Serves(ws[..i], frames)
    {
      FitsRest(file.text, file.text[file.pos..], i);
      var _ := file.ScanWord(wordbuf);
      assert ws[i..][1..] == ws[i + 1..] && ws[i..][0] == ws[i];
      frames := frames + [wordbuf[..]];
    }
    assert ws[..wordcount] == ws;
  }

  /** Serves a request for a file that is there or not: a negative count means it is not. */
  method FileRequestHandler(text: Option<string>) returns (wordcount: int, frames: seq<string>)
    requires text.Some? ==> Fits(text.value, WORD_LEN)
    ensures text.None? ==> wordcount == -1 && frames == []
    ensures text.Some? ==> wordcount == |frames| && Serves(Words(text.value), frames)
  {
    if text.None? {
      return -1, [];
    }
    var file := new InFile(text.value);
    var wordbuf := new char[WORD_LEN];
    wordcount := CountWords(file, wordbuf);
    file.Rewind();
    frames := SendWords(file, wordbuf, wordcount);
  }

  lemma {:induction false} RenderAppend(ws: seq<string>, w: string)
    ensures Render(ws + [w]) == Render(ws) + (w + " ")
  {
    if ws == [] {
      assert (ws + [w])[1..] == [];
    } else {
      assert (ws + [w])[1..] == ws[1..] + [w];
      RenderAppend(ws[1..], w);
    }
  }

  lemma RenderNext(ws: seq<string>, n: nat)
    requires n < |ws|
    ensures Render(Cut(ws[..n + 1])) == Render(Cut(ws[..n])) + CStr(ws[n]) + " "
  {
    RenderAppend(Cut(ws[..n]), CStr(ws[n]));
    assert Cut(ws[..n + 1]) == Cut(ws[..n]) + [CStr(ws[n])];
  }

  /** Receives a file: nothing is created when the peer has none. */
  method DownloadFile(wordcount: int, frames: seq<string>) returns (saved: Option<string>)
    requires wordcount <= |frames|
    ensures wordcount < 0 ==> saved == None
    ensures wordcount >= 0 ==> saved == Some(Render(Cut(frames[..wordcount])))
  {
    if wordcount < 0 {
      return None;
    }
    var file := "";
    for i := 0 to wordcount
      invariant file == Render(Cut(frames[..i]))
    {
      RenderNext(frames, i);
      file := file + CStr(frames[i]) + " ";
    }
    return Some(file);
  }

  /** Prints a file word by word, as `retrieve_file` does between its two markers. */
  method PrintFile(text: string) returns (printed: string)
    requires Fits(text, WORD_LEN)
    ensures printed == Body(text)
  {
    var file := new InFile(text);
    var printbuf := new char[WORD_LEN];
    ghost var ws, n := Words(text), 0;
    assert text[0..] == text;
    printed := "";
    var result := file.ScanWord(printbuf);
    while result == 1
      invariant file.pos <= |text| && n <= |ws| && (result == 1 <==> n < |ws|)
      invariant result == 1 ==> Words(text[file.pos..]) == ws[n + 1..] && CStr(printbuf[..]) == CStr(ws[n])
      invariant printed == Render(Cut(ws[..n]))
      decreases |ws| - n
    {
      RenderNext(ws, n);
      printed := printed + CStr(printbuf[..]) + " ";
      FitsRest(text, text[file.pos..], n + 1);
      n := n + 1;
      result := file.ScanWord(printbuf);
    }
    assert ws[..n] == ws;
  }

  lemma BodyFits(text: string)
    requires Fits(text, WORD_LEN)
    ensures Fits(Body(text), WORD_LEN)
  {
    BodyWords(text);
    ShorterWords(Cut(Words(text)));
  }

  lemma {:induction false} ShorterWords(cs: seq<string>)
    requires forall i :: 0 <= i < |cs| ==> |cs[i]| < WORD_LEN
    ensures forall i :: 0 <= i < |NonEmpty(cs)| ==> |NonEmpty(cs)[i]| < WORD_LEN
  {
    if cs != [] { ShorterWords(cs[1..]); }
  }

  // ---- printing a download that was never closed ----

  predicate Blank(s: string) {
    forall i :: 0 <= i < |s| ==> IsSpace(s[i])
  }

  lemma {:induction false} NoWords(s: string)
    ensures Words(s) == [] <==> Blank(s)
  {
    if s != [] {
      if IsSpace(s[0]) {
        NoWords(s[1..]);
        assert s == [s[0]] + s[1..];
      } else {
        assert !IsSpace(s[0]);
      }
    }
  }

  /** The first `k` characters of a text have all of its words exactly when only white space
      is missing. */
  lemma {:induction false} PrefixWords(s: string, k: nat)
    requires k <= |s|
    ensures Words(s[..k]) == Words(s) <==> Blank(s[k..])
    decreases |s|
  {
    if k == 0 {
      NoWords(s);
      assert s[0..] == s;
    } else if IsSpace(s[0]) {
      PrefixWords(s[1..], k - 1);
      assert s[..k][1..] == s[1..][..k - 1] && s[1..][k - 1..] == s[k..];
    } else {
      PrefixWordsBehind(s, k);
    }
  }

  lemma {:induction false} PrefixWordsBehind(s: string, k: nat)
    requires 0 < k <= |s| && !IsSpace(s[0])
    ensures Words(s[..k]) == Words(s) <==> Blank(s[k..])
    decreases |s|, 0
  {
    var n := WordLength(s);
    if k < n {
      CutInFirstWord(s, k);
      assert s[k..][0] == s[k];
      assert |Words(s[..k])[0]| != |Words(s)[0]|;
    } else {
      CutBehindFirstWord(s, n, k);
      PrefixWords(s[n..], k - n);
      assert s[n..][k - n..] == s[k..];
      assert Words(s)[1..] == Words(s[n..]) && Words(s[..k])[1..] == Words(s[n..][..k - n]);
    }
  }

  lemma WordThenRest(w: string, rest: string)
    requires IsWord(w) && (rest == [] || IsSpace(rest[0]))
    ensures Words(w + rest) == [w] + Words(rest)
  {
    var s := w + rest;
    WordLengthIs(s, |w|);
    assert s[..|w|] == w && s[|w|..] == rest;
  }

  /** Cutting a text inside its first word leaves a shorter word. */
  lemma CutInFirstWord(s: string, k: nat)
    requires 0 < k < WordLength(s)
    ensures Words(s[..k]) == [s[..k]] && !IsSpace(s[k])
  {
    WordLengthEnds(s);
    WordThenRest(s[..k], []);
    assert s[..k] + [] == s[..k] && Words([]) == [];
  }

  /** Cutting it further back leaves the first word alone. */
  lemma CutBehindFirstWord(s: string, n: nat, k: nat)
    requires 0 < n == WordLength(s) && n <= k <= |s|
    ensures Words(s[..k]) == [s[..n]] + Words(s[n..][..k - n])
  {
    WordLengthEnds(s);
    var rest := s[n..][..k - n];
    assert s[..n] + rest == s[..k];
    assert rest != [] ==> rest[0] == s[n];
    WordThenRest(s[..n], rest);
  }

  lemma {:induction false} PrefixFits(s: string, k: nat, limit: nat)
    requires Fits(s, limit) && k <= |s|
    ensures Fits(s[..k], limit)
    decreases |s|
  {
    if k > 0 {
      if IsSpace(s[0]) {
        assert s[..k][1..] == s[1..][..k - 1];
        assert Words(s[1..]) == Words(s);
        PrefixFits(s[1..], k - 1, limit);
      } else {
        var n := WordLength(s);
        assert |Words(s)[0]| == n < limit;
        if k < n {
          CutInFirstWord(s, k);
        } else {
          CutBehindFirstWord(s, n, k);
          assert forall i :: 0 <= i < |Words(s[n..])| ==> Words(s[n..])[i] == Words(s)[i + 1];
          PrefixFits(s[n..], k - n, limit);
        }
      }
    }
  }

  lemma {:induction false} RenderIsClean(ws: seq<string>)
    requires forall i :: 0 <= i < |ws| ==> NUL !in ws[i]
    ensures NUL !in Render(ws)
  {
    if ws != [] { RenderIsClean(ws[1..]); }
  }

  lemma BodyIsClean(text: string)
    ensures NUL !in Body(text)
  {
    RenderIsClean(Cut(Words(text)));
  }

  /** Texts without terminator bytes print alike exactly when they have the same words. */
  lemma CleanBodies(a: string, b: string)
    requires NUL !in a && NUL !in b
    ensures Body(a) == Body(b) <==> Words(a) == Words(b)
  {
    BodyWords(a);
    CleanWordsSurvive(a);
    BodyWords(b);
    CleanWordsSurvive(b);
  }

  /** What another stream finds in a file of which `flushed` bytes have been written out. */
  function OnDisk(text: string, flushed: nat): (r: string)
    ensures r + Unwritten(text, flushed) == text && (|r| == flushed || (r == text && |text| < flushed))
  {
    if flushed < |text| then text[..flushed] else text
  }

  /** What is still in the buffer of the stream. */
  function Unwritten(text: string, flushed: nat): string {
    if flushed < |text| then text[flushed..] else []
  }

  /** The node prints all of a file it has just downloaded exactly when the bytes still in the
      buffer are white space. */
  lemma PrintedInFull(text: string, flushed: nat)
    ensures Body(OnDisk(Body(text), flushed)) == Body(Body(text)) <==> Blank(Unwritten(Body(text), flushed))
  {
    var saved := Body(text);
    BodyIsClean(text);
    if flushed < |saved| {
      PrefixWords(saved, flushed);
      CleanBodies(saved[..flushed], saved);
    }
  }

  /** It prints what the holder of the original prints exactly when, moreover, no word of the
      original starts with a terminator byte. */
  lemma PrintsLikeTheOriginal(text: string, flushed: nat)
    ensures Body(OnDisk(Body(text), flushed)) == Body(text)
       <==> Blank(Unwritten(Body(text), flushed))
            && forall i :: 0 <= i < |Words(text)| ==> !StartsWithNul(Words(text)[i])
  {
    var saved, disk := Body(text), OnDisk(Body(text), flushed);
    BodyIsClean(text);
    PrintedInFull(text, flushed);
    CopyIsStable(text);
    if Body(disk) == saved {
      BodyWords(disk);
      CleanWordsSurvive(disk);
      CleanBodies(disk, saved);
    }
  }

  /** A download that fits the buffer of its stream is printed as nothing, unless it holds no
      words. */
  lemma ShortDownloadPrintsNothing(text: string)
    ensures Body(OnDisk(Body(text), 0)) == []
    ensures Body(Body(text)) == [] <==> Blank(Body(text))
  {
    PrintedInFull(text, 0);
    assert OnDisk(Body(text), 0) == [];
    assert Body([]) == [];
  }

  /** Fetches a file over the wire and prints it. The download is never closed, so what is
      printed is what the stream has written out by then; that is `flushed` bytes, and all of
      `saved` comes to be in the file later. */
  method RetrieveFile(remote: Option<string>, flushed: nat) returns (saved: Option<string>, printed: Option<string>)
    requires remote.Some? ==> Fits(remote.value, WORD_LEN)
    ensures remote.None? ==> saved == printed == None
    ensures remote.Some? ==>
      saved == Some(Body(remote.value)) && printed == Some(Body(OnDisk(Body(remote.value), flushed)))
  {
    var wordcount, frames := FileRequestHandler(remote);
    saved := DownloadFile(wordcount, frames);
    printed := None;
    if saved.Some? {
      assert frames[..wordcount] == frames;
      assert Cut(frames) == Cut(Words(remote.value));
      BodyFits(remote.value);
      if flushed < |saved.value| { PrefixFits(saved.value, flushed, WORD_LEN); }
      var text := PrintFile(OnDisk(saved.value, flushed));
      printed := Some(text);
    }
  }
}
