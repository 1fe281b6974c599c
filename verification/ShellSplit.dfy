/** The POSIX-style word splitter (src/security/BlastRadius.cpp, SplitArgs).
  *
  * `Lexed` is the tokenizer as a function of its state and the remaining text. The partner is a small grammar of quoted
  * words, built from bare characters, backslash escapes, single quotes and double quotes in any mix: splitting undoes
  * writing them down.
  */
module ShellSplit {
  datatype Mode = Plain | Single | Double

  datatype Lex = Lex(out: seq<string>, cur: string, have: bool, mode: Mode) {
    function Push(s: string): Lex {
      this.(cur := cur + s, have := true)
    }

    function EndWord(): Lex {
      if have then this.(out := out + [cur], cur := "", have := false) else this
    }
  }

  const START := Lex([], "", false, Plain)

  /** The C locale's isspace. */
  predicate IsSpace(c: char) {
    c == ' ' || c == '\t' || c == '\n' || c == '\r' || c == '\U{0B}' || c == '\U{0C}'
  }

  /** The characters a backslash escapes inside double quotes. */
  predicate Special(c: char) {
    c == '"' || c == '\\' || c == '$' || c == '`'
  }

  /** One turn of the loop: the new state and how many characters it used. */
  function Step(st: Lex, s: string): (r: (Lex, nat))
    requires s != ""
    ensures 1 <= r.1 <= |s|
  {
    var c := s[0];
    match st.mode
    case Plain =>
      if c == '\\' && 1 < |s| then (st.Push([s[1]]), 2)
      else if c == '\'' then (st.(mode := Single, have := true), 1)
      else if c == '"' then (st.(mode := Double, have := true), 1)
      else if IsSpace(c) then (st.EndWord(), 1)
      else (st.Push([c]), 1)
    case Single =>
      if c == '\'' then (st.(mode := Plain), 1) else (st.(cur := st.cur + [c]), 1)
    case Double =>
      if c == '\\' && 1 < |s| && Special(s[1]) then (st.(cur := st.cur + [s[1]]), 2)
      else if c == '"' then (st.(mode := Plain), 1)
      else (st.(cur := st.cur + [c]), 1)
  }

  function Lexed(st: Lex, s: string): Lex
    decreases |s|
  {
    if s == "" then st
    else
      var (next, k) := Step(st, s);
      Lexed(next, s[k..])
  }

  lemma LexOne(st: Lex, s: string)
    requires s != ""
    ensures Lexed(st, s) == Lexed(Step(st, s).0, s[Step(st, s).1..])
  {}

  lemma LexNone(st: Lex)
    ensures Lexed(st, "") == st
  {}

  function Split(s: string): seq<string> {
    Lexed(START, s).EndWord().out
  }

  predicate Unterminated(s: string) {
    Lexed(START, s).mode != Plain
  }

  method SplitArgs(command: string) returns (out: seq<string>, unterminated: bool)
    ensures out == Split(command) && unterminated == Unterminated(command)
  {
    hide Lexed;
    out := [];
    var cur := "";
    var have := false;
    var mode := Plain;
    var i := 0;
    while i < |command|
      invariant 0 <= i <= |command|
      invariant Lexed(Lex(out, cur, have, mode), command[i..]) == Lexed(START, command)
    {
      var c := command[i];
      ghost var st, rest, at := Lex(out, cur, have, mode), command[i..], i;
      LexOne(st, rest);
      if mode == Plain {
        if c == '\\' && i + 1 < |command| {
          i := i + 1;
          cur := cur + [command[i]];
          have := true;
        } else if c == '\'' {
          mode := Single;
          have := true;
        } else if c == '"' {
          mode := Double;
          have := true;
        } else if IsSpace(c) {
          if have {
            out := out + [cur];
            cur := "";
            have := false;
          }
        } else {
          cur := cur + [c];
          have := true;
        }
      } else if mode == Single {
        if c == '\'' {
          mode := Plain;
        } else {
          cur := cur + [c];
        }
      } else if c == '\\' && i + 1 < |command| {
        var n := command[i + 1];
        if n == '"' || n == '\\' || n == '$' || n == '`' {
          cur := cur + [n];
          i := i + 1;
        } else {
          cur := cur + [c];
        }
      } else if c == '"' {
        mode := Plain;
      } else {
        cur := cur + [c];
      }
      i := i + 1;
      assert (Lex(out, cur, have, mode), i - at) == Step(st, rest);
      assert command[i..] == rest[i - at..];
    }
    assert command[i..] == "";
    LexNone(Lex(out, cur, have, mode));
    if have {
      out := out + [cur];
    }
    unterminated := mode != Plain;
  }

  // ---- splitting a concatenation --------------------------------------------------------------------------------

  /** The text ends with a backslash that would escape whatever is written after it. */
  predicate EndsLone(st: Lex, s: string)
    decreases |s|
  {
    if s == "" then false
    else if s == "\\" && st.mode != Single then true
    else
      var (next, k) := Step(st, s);
      EndsLone(next, s[k..])
  }

  /** Reading a text in two parts is reading it whole, unless the cut falls after a lone backslash. */
  lemma {:induction false} LexedConcat(st: Lex, a: string, b: string)
    requires !EndsLone(st, a)
    ensures Lexed(st, a + b) == Lexed(Lexed(st, a), b)
    decreases |a|
  {
    hide Lexed;
    if a == "" {
      assert a + b == b;
      LexNone(st);
    } else {
      var (next, k) := Step(st, a);
      LexOne(st, a);
      LexOne(st, a + b);
      assert Step(st, a + b) == (next, k);
      assert (a + b)[k..] == a[k..] + b;
      LexedConcat(next, a[k..], b);
    }
  }

  lemma StepKeepsOut(done: seq<string>, st: Lex, s: string)
    requires s != ""
    ensures var (next, k) := Step(st, s);
      Step(st.(out := done + st.out), s) == (next.(out := done + next.out), k)
  {
    assert done + (st.out + [st.cur]) == (done + st.out) + [st.cur];
  }

  /** Finished words are only ever appended to. */
  lemma {:induction false} LexedKeepsOut(done: seq<string>, st: Lex, s: string)
    ensures Lexed(st.(out := done + st.out), s) == Lexed(st, s).(out := done + Lexed(st, s).out)
    decreases |s|
  {
    if s != "" {
      hide Step, Lexed;
      StepKeepsOut(done, st, s);
      LexOne(st, s);
      LexOne(st.(out := done + st.out), s);
      var (next, k) := Step(st, s);
      LexedKeepsOut(done, next, s[k..]);
    } else {
      LexNone(st);
      LexNone(st.(out := done + st.out));
    }
  }

  /** Between words nothing is buffered. */
  lemma {:induction false} NothingBuffered(st: Lex, s: string)
    requires !st.have ==> st.cur == "" && st.mode == Plain
    ensures var t := Lexed(st, s); !t.have ==> t.cur == "" && t.mode == Plain
    decreases |s|
  {
    if s != "" {
      var (next, k) := Step(st, s);
      NothingBuffered(next, s[k..]);
    }
  }

  /** A command that ends in plain mode, followed by a space and any other text, splits into its own words followed by
    * the words of that text. */
  lemma SplitConcat(a: string, b: string)
    requires !Unterminated(a) && !EndsLone(START, a)
    ensures Split(a + " " + b) == Split(a) + Split(b)
    ensures Unterminated(a + " " + b) == Unterminated(b)
  {
    var st, sb := Lexed(START, a), " " + b;
    assert a + " " + b == a + sb;
    LexedConcat(START, a, sb);
    assert sb[1..] == b;
    NothingBuffered(START, a);
    assert st.EndWord() == START.(out := Split(a) + START.out);
    LexedKeepsOut(Split(a), START, b);
    var t := Lexed(START, b);
    assert Split(a) + (t.out + [t.cur]) == (Split(a) + t.out) + [t.cur];
  }

  // ---- quoting --------------------------------------------------------------------------------------------------

  /** Inside double quotes: a character as it is, or any character after a backslash. */
  datatype Item = Raw(c: char) | Slashed(c: char)

  datatype Piece =
    | Bare(c: char)
    | Escaped(c: char)
    | SingleQuoted(s: string)
    | DoubleQuoted(items: seq<Item>)

  predicate ItemOk(i: Item) {
    i.Raw? ==> i.c != '"' && i.c != '\\'
  }

  predicate PieceOk(p: Piece) {
    match p
    case Bare(c) => c != '\\' && c != '\'' && c != '"' && !IsSpace(c)
    case Escaped(_) => true
    case SingleQuoted(s) => '\'' !in s
    case DoubleQuoted(items) => forall i :: i in items ==> ItemOk(i)
  }

  function ItemText(i: Item): string {
    if i.Raw? then [i.c] else ['\\', i.c]
  }

  /** What the item stands for: a backslash disappears only before a special character. */
  function ItemValue(i: Item): string {
    if i.Slashed? && !Special(i.c) then ['\\', i.c] else [i.c]
  }

  function ItemsText(items: seq<Item>): string {
    if items == [] then "" else ItemText(items[0]) + ItemsText(items[1..])
  }

  function ItemsValue(items: seq<Item>): string {
    if items == [] then "" else ItemValue(items[0]) + ItemsValue(items[1..])
  }

  function PieceText(p: Piece): string {
    match p
    case Bare(c) => [c]
    case Escaped(c) => ['\\', c]
    case SingleQuoted(s) => "'" + s + "'"
    case DoubleQuoted(items) => "\"" + ItemsText(items) + "\""
  }

  function PieceValue(p: Piece): string {
    match p
    case Bare(c) => [c]
    case Escaped(c) => [c]
    case SingleQuoted(s) => s
    case DoubleQuoted(items) => ItemsValue(items)
  }

  /** A word is one or more pieces; an empty word needs a pair of quotes. */
  type Word = seq<Piece>

  predicate WordOk(w: Word) {
    w != [] && forall p :: p in w ==> PieceOk(p)
  }

  function WordText(w: Word): string {
    if w == [] then "" else PieceText(w[0]) + WordText(w[1..])
  }

  function WordValue(w: Word): string {
    if w == [] then "" else PieceValue(w[0]) + WordValue(w[1..])
  }

  /** Words with white space before each. */
  datatype Spaced = Spaced(gap: string, word: Word)

  predicate GapOk(gap: string) {
    forall c :: c in gap ==> IsSpace(c)
  }

  /** Only the gap before the first word may be empty. */
  predicate LineOk(line: seq<Spaced>) {
    line != [] ==>
      && GapOk(line[0].gap) && WordOk(line[0].word) && LineOk(line[1..])
      && (1 < |line| ==> line[1].gap != "")
  }

  function LineText(line: seq<Spaced>): string {
    if line == [] then "" else line[0].gap + WordText(line[0].word) + LineText(line[1..])
  }

  function LineWords(line: seq<Spaced>): seq<string> {
    if line == [] then [] else [WordValue(line[0].word)] + LineWords(line[1..])
  }

  lemma {:induction false} LexSingle(st: Lex, s: string, rest: string)
    requires st.mode == Single && '\'' !in s
    ensures Lexed(st, s + ("'" + rest)) == Lexed(st.(cur := st.cur + s, mode := Plain), rest)
    decreases |s|
  {
    var text := s + ("'" + rest);
    hide Lexed;
    LexOne(st, text);
    if s == "" {
      assert text == "'" + rest && text[1..] == rest && st.cur + s == st.cur;
    } else {
      assert text[1..] == s[1..] + ("'" + rest);
      LexSingle(st.(cur := st.cur + [s[0]]), s[1..], rest);
      assert st.cur + [s[0]] + s[1..] == st.cur + s;
    }
  }

  lemma {:induction false} LexDouble(st: Lex, items: seq<Item>, rest: string)
    requires st.mode == Double && forall i :: i in items ==> ItemOk(i)
    ensures Lexed(st, ItemsText(items) + ("\"" + rest)) ==
            Lexed(st.(cur := st.cur + ItemsValue(items), mode := Plain), rest)
    decreases |items|
  {
    hide Lexed, ItemText, ItemValue;
    if items == [] {
      assert ItemsText(items) + ("\"" + rest) == "\"" + rest && st.cur + "" == st.cur;
      LexClose(st, rest);
    } else {
      var tail := ItemsText(items[1..]) + ("\"" + rest);
      var st1 := st.(cur := st.cur + ItemValue(items[0]));
      assert Lexed(st, ItemsText(items) + ("\"" + rest)) == Lexed(st1, tail) by {
        assert ItemsText(items) + ("\"" + rest) == ItemText(items[0]) + tail;
        LexItem(st, items[0], tail);
      }
      LexDouble(st1, items[1..], rest);
      assert st.cur + ItemValue(items[0]) + ItemsValue(items[1..]) == st.cur + ItemsValue(items);
    }
  }

  lemma LexClose(st: Lex, rest: string)
    requires st.mode == Double
    ensures Lexed(st, "\"" + rest) == Lexed(st.(mode := Plain), rest)
  {}

  lemma LexItem(st: Lex, i: Item, tail: string)
    requires st.mode == Double && ItemOk(i)
    ensures Lexed(st, ItemText(i) + tail) == Lexed(st.(cur := st.cur + ItemValue(i)), tail)
  {
    hide Lexed;
    var text := ItemText(i) + tail;
    LexOne(st, text);
    if i.Raw? {
      assert text[1..] == tail;
    } else if Special(i.c) {
      assert text[2..] == tail;
    } else {
      assert text[1..] == [i.c] + tail && ([i.c] + tail)[1..] == tail;
      LexOne(st.(cur := st.cur + ['\\']), [i.c] + tail);
      assert st.cur + ['\\'] + [i.c] == st.cur + ItemValue(i);
    }
  }

  lemma LexOpen(st: Lex, quote: char, rest: string)
    requires st.mode == Plain && (quote == '\'' || quote == '"')
    ensures Lexed(st, [quote] + rest) == Lexed(st.(mode := if quote == '"' then Double else Single, have := true), rest)
  {}

  lemma LexPiece(st: Lex, p: Piece, rest: string)
    requires st.mode == Plain && PieceOk(p)
    ensures Lexed(st, PieceText(p) + rest) == Lexed(st.Push(PieceValue(p)), rest)
  {
    hide Lexed, ItemsText, ItemsValue;
    var text := PieceText(p) + rest;
    match p
    case Bare(c) =>
      LexOne(st, text);
      assert text[1..] == rest;
    case Escaped(c) =>
      LexOne(st, text);
      assert text[2..] == rest;
    case SingleQuoted(s) =>
      assert text == ['\''] + (s + ("'" + rest)) by { Rebracket(['\''], s, "'", rest); }
      LexSingleQuoted(st, s, rest);
    case DoubleQuoted(items) =>
      assert text == ['"'] + (ItemsText(items) + ("\"" + rest)) by { Rebracket(['"'], ItemsText(items), "\"", rest); }
      LexDoubleQuoted(st, items, rest);
  }

  lemma Rebracket(a: string, b: string, c: string, d: string)
    ensures a + b + c + d == a + (b + (c + d))
  {}

  lemma LexSingleQuoted(st: Lex, s: string, rest: string)
    requires st.mode == Plain && '\'' !in s
    ensures Lexed(st, ['\''] + (s + ("'" + rest))) == Lexed(st.Push(s), rest)
  {
    hide Lexed;
    LexOpen(st, '\'', s + ("'" + rest));
    LexSingle(st.(mode := Single, have := true), s, rest);
  }

  lemma LexDoubleQuoted(st: Lex, items: seq<Item>, rest: string)
    requires st.mode == Plain && forall i :: i in items ==> ItemOk(i)
    ensures Lexed(st, ['"'] + (ItemsText(items) + ("\"" + rest))) == Lexed(st.Push(ItemsValue(items)), rest)
  {
    hide Lexed, ItemsText, ItemsValue, ItemOk;
    LexOpen(st, '"', ItemsText(items) + ("\"" + rest));
    LexDouble(st.(mode := Double, have := true), items, rest);
  }

  lemma PushTwice(st: Lex, s: string, t: string)
    ensures st.Push(s).Push(t) == st.Push(s + t)
  {}

  lemma {:induction false} LexWord(st: Lex, w: Word, rest: string)
    requires st.mode == Plain && (forall p :: p in w ==> PieceOk(p)) && (w == [] ==> st.have)
    ensures Lexed(st, WordText(w) + rest) == Lexed(st.Push(WordValue(w)), rest)
    decreases |w|
  {
    hide Lexed, PieceText, PieceValue, PieceOk;
    if w == [] {
      assert WordText(w) + rest == rest && st.cur + "" == st.cur;
    } else {
      var text, tail := PieceText(w[0]), WordText(w[1..]);
      assert WordText(w) + rest == text + (tail + rest);
      LexPiece(st, w[0], tail + rest);
      LexWord(st.Push(PieceValue(w[0])), w[1..], rest);
      PushTwice(st, PieceValue(w[0]), WordValue(w[1..]));
    }
  }

  lemma {:induction false} LexGap(st: Lex, gap: string, rest: string)
    requires st.mode == Plain && GapOk(gap)
    ensures Lexed(st, gap + rest) == Lexed(if gap == "" then st else st.EndWord(), rest)
    decreases |gap|
  {
    hide Lexed;
    if gap == "" {
      assert gap + rest == rest;
    } else {
      assert (gap + rest)[1..] == gap[1..] + rest;
      LexOne(st, gap + rest);
      LexGap(st.EndWord(), gap[1..], rest);
      assert st.EndWord().EndWord() == st.EndWord();
      assert gap[0] in gap;
      assert Step(st, gap + rest) == (st.EndWord(), 1);
    }
  }

  lemma Regroup(a: string, b: string, c: string, d: string)
    ensures a + b + c + d == a + (b + (c + d))
  {}

  /** One gap and one word: whatever was being read is finished, and the new word is buffered. */
  lemma LexSpaced(st: Lex, sp: Spaced, tail: string)
    requires st.mode == Plain && (!st.have ==> st.cur == "") && GapOk(sp.gap) && WordOk(sp.word)
    requires st.have ==> sp.gap != ""
    ensures Lexed(st, sp.gap + (WordText(sp.word) + tail)) ==
            Lexed(Lex(st.EndWord().out, WordValue(sp.word), true, Plain), tail)
  {
    hide Lexed, WordText, WordValue;
    LexGap(st, sp.gap, WordText(sp.word) + tail);
    LexWord(st.EndWord(), sp.word, tail);
    assert "" + WordValue(sp.word) == WordValue(sp.word);
  }

  lemma LexEnd(st: Lex, line: seq<Spaced>, end: string)
    requires st.mode == Plain && GapOk(end) && line == []
    ensures Lexed(st, LineText(line) + end).EndWord().out == st.EndWord().out + LineWords(line)
    ensures Lexed(st, LineText(line) + end).mode == Plain
  {
    hide Lexed;
    assert LineText(line) + end == end + "";
    LexGap(st, end, "");
    LexNone(if end == "" then st else st.EndWord());
    assert st.EndWord().out + [] == st.EndWord().out;
  }

  lemma {:induction false} LexLine(st: Lex, line: seq<Spaced>, end: string)
    requires st.mode == Plain && (!st.have ==> st.cur == "") && LineOk(line) && GapOk(end)
    requires st.have && line != [] ==> line[0].gap != ""
    ensures Lexed(st, LineText(line) + end).EndWord().out == st.EndWord().out + LineWords(line)
    ensures Lexed(st, LineText(line) + end).mode == Plain
    decreases |line|
  {
    hide Lexed, WordText, WordValue, IsSpace, PieceOk;
    if line == [] {
      LexEnd(st, line, end);
    } else {
      var rest := line[1..];
      var st1 := Lex(st.EndWord().out, WordValue(line[0].word), true, Plain);
      assert Lexed(st, LineText(line) + end) == Lexed(st1, LineText(rest) + end) by {
        Regroup(line[0].gap, WordText(line[0].word), LineText(rest), end);
        LexSpaced(st, line[0], LineText(rest) + end);
      }
      LexLine(st1, rest, end);
      assert st1.EndWord().out + LineWords(rest) == st.EndWord().out + LineWords(line);
    }
  }

  /** Splitting undoes quoting: any words, each written with any mix of quotes and escapes and set apart by any white
    * space, split back to exactly those words, with nothing left open. */
  lemma SplitUndoesQuoting(line: seq<Spaced>, end: string)
    requires LineOk(line) && GapOk(end)
    ensures Split(LineText(line) + end) == LineWords(line)
    ensures !Unterminated(LineText(line) + end)
  {
    LexLine(START, line, end);
    assert [] + LineWords(line) == LineWords(line);
  }

  /** Any string can be written as a word. */
  function Quoted(s: string): (w: Word)
    ensures WordOk(w) && WordValue(w) == s
  {
    if s == "" then [SingleQuoted("")]
    else if |s| == 1 then [Escaped(s[0])]
    else [Escaped(s[0])] + Quoted(s[1..])
  }

  /** A string with nothing in it to quote, written as it is. */
  function Unquoted(s: string): (w: Word)
    requires forall c :: c in s ==> PieceOk(Bare(c))
    ensures WordText(w) == s == WordValue(w) && |w| == |s| && forall p :: p in w ==> PieceOk(p)
  {
    if s == "" then [] else [Bare(s[0])] + Unquoted(s[1..])
  }

  lemma OneWord(w: Word)
    ensures LineText([Spaced("", w)]) == WordText(w) && LineWords([Spaced("", w)]) == [WordValue(w)]
  {}

  lemma UnquotedWord(s: string)
    requires s != "" && forall c :: c in s ==> PieceOk(Bare(c))
    ensures Split(s) == [s] && !Unterminated(s)
  {
    hide Split, Unterminated, LineText, LineWords, Unquoted;
    var line := [Spaced("", Unquoted(s))];
    OneWord(Unquoted(s));
    assert s + "" == s;
    SplitUndoesQuoting(line, "");
  }

  function QuotedLine(words: seq<string>): (line: seq<Spaced>)
    ensures LineOk(line) && LineWords(line) == words && (line != [] ==> line[0].gap != "")
  {
    if words == [] then [] else [Spaced(" ", Quoted(words[0]))] + QuotedLine(words[1..])
  }

  /** Hence every list of strings, empty ones and ones full of quotes included, is what some command splits to. */
  lemma EveryListIsSplit(words: seq<string>)
    ensures Split(LineText(QuotedLine(words))) == words
  {
    SplitUndoesQuoting(QuotedLine(words), "");
    assert LineText(QuotedLine(words)) + "" == LineText(QuotedLine(words));
  }

  // ---- line continuation ----------------------------------------------------------------------------------------

  /** What section 2.2 of the POSIX Shell Command Language makes of the same pieces. It differs in one thing: a
    * backslash and a newline, bare or in double quotes, are a line continuation and leave nothing at all. */
  function PosixItems(items: seq<Item>): string {
    if items == [] then ""
    else PosixItem(items[0]) + PosixItems(items[1..])
  }

  /** In double quotes a backslash is special before these four and the newline. */
  function PosixItem(i: Item): string {
    match i
    case Raw(c) => [c]
    case Slashed(c) => if c == '\n' then "" else if c in {'$', '`', '"', '\\'} then [c] else ['\\', c]
  }

  function PosixPiece(p: Piece): string {
    match p
    case Escaped(c) => if c == '\n' then "" else [c]
    case DoubleQuoted(items) => PosixItems(items)
    case _ => PieceValue(p)
  }

  function PosixWord(w: Word): string {
    if w == [] then "" else PosixPiece(w[0]) + PosixWord(w[1..])
  }

  predicate ContinuesPiece(p: Piece) {
    p == Escaped('\n') || (p.DoubleQuoted? && Slashed('\n') in p.items)
  }

  predicate ContinuesWord(w: Word) {
    exists i :: 0 <= i < |w| && ContinuesPiece(w[i])
  }

  predicate Continues(line: seq<Spaced>) {
    exists i :: 0 <= i < |line| && ContinuesWord(line[i].word)
  }

  /** Nothing but continuations is no word. */
  function PosixWords(line: seq<Spaced>): seq<string> {
    if line == [] then []
    else
      var w := line[0].word;
      (if forall p :: p in w ==> p == Escaped('\n') then [] else [PosixWord(w)]) + PosixWords(line[1..])
  }

  function Chars(words: seq<string>): nat {
    if words == [] then 0 else |words[0]| + Chars(words[1..])
  }

  lemma {:induction false} ItemsShrinkIff(items: seq<Item>)
    ensures |PosixItems(items)| <= |ItemsValue(items)|
    ensures |PosixItems(items)| < |ItemsValue(items)| <==> Slashed('\n') in items
    ensures Slashed('\n') !in items ==> PosixItems(items) == ItemsValue(items)
  {
    if items != [] {
      ItemsShrinkIff(items[1..]);
      assert items == [items[0]] + items[1..];
    }
  }

  lemma PieceShrinksIff(p: Piece)
    ensures |PosixPiece(p)| <= |PieceValue(p)|
    ensures |PosixPiece(p)| < |PieceValue(p)| <==> ContinuesPiece(p)
    ensures !ContinuesPiece(p) ==> PosixPiece(p) == PieceValue(p)
  {
    if p.DoubleQuoted? {
      ItemsShrinkIff(p.items);
    }
  }

  lemma {:induction false} WordShrinksIff(w: Word)
    ensures |PosixWord(w)| <= |WordValue(w)|
    ensures |PosixWord(w)| < |WordValue(w)| <==> ContinuesWord(w)
    ensures !ContinuesWord(w) ==> PosixWord(w) == WordValue(w)
  {
    hide PosixPiece, PieceValue, ContinuesPiece;
    if w != [] {
      PieceShrinksIff(w[0]);
      WordShrinksIff(w[1..]);
      assert ContinuesWord(w) <==> ContinuesPiece(w[0]) || ContinuesWord(w[1..]) by { ContinuesSplits(w); }
    }
  }

  lemma ContinuesSplits(w: Word)
    requires w != []
    ensures ContinuesWord(w) <==> ContinuesPiece(w[0]) || ContinuesWord(w[1..])
  {
    hide ContinuesPiece;
    assert w == [w[0]] + w[1..];
    if ContinuesWord(w[1..]) {
      var i :| 0 <= i < |w[1..]| && ContinuesPiece(w[1..][i]);
      assert ContinuesPiece(w[i + 1]);
    }
  }

  lemma VanishedIsEmpty(w: Word)
    requires w != [] && forall p :: p in w ==> p == Escaped('\n')
    ensures PosixWord(w) == "" && ContinuesWord(w)
  {
    assert w[0] in w && ContinuesPiece(w[0]);
    WordShrinksIff(w);
    if |w| > 1 {
      assert forall p :: p in w[1..] ==> p in w;
      VanishedIsEmpty(w[1..]);
    }
  }

  lemma {:induction false} LineShrinksIff(line: seq<Spaced>)
    requires forall i :: 0 <= i < |line| ==> line[i].word != []
    ensures Chars(PosixWords(line)) <= Chars(LineWords(line))
    ensures Chars(PosixWords(line)) < Chars(LineWords(line)) <==> Continues(line)
    ensures !Continues(line) ==> PosixWords(line) == LineWords(line)
  {
    hide PosixWord, WordValue, ContinuesWord;
    if line != [] {
      var w, rest := line[0].word, line[1..];
      LineShrinksIff(rest);
      WordShrinksIff(w);
      assert line == [line[0]] + rest;
      assert Continues(line) <==> ContinuesWord(w) || Continues(rest) by { ContinuesLater(line); }
      if forall p :: p in w ==> p == Escaped('\n') {
        VanishedIsEmpty(w);
        assert [] + PosixWords(rest) == PosixWords(rest);
      } else {
        assert ([PosixWord(w)] + PosixWords(rest))[1..] == PosixWords(rest);
      }
      assert ([WordValue(w)] + LineWords(rest))[1..] == LineWords(rest);
      if !ContinuesWord(w) {
        NotVanishing(w);
      }
    }
  }

  lemma NotVanishing(w: Word)
    requires w != [] && !ContinuesWord(w)
    ensures !(forall p :: p in w ==> p == Escaped('\n'))
  {
    assert w[0] in w;
  }

  lemma ContinuesLater(line: seq<Spaced>)
    requires line != []
    ensures Continues(line) <==> ContinuesWord(line[0].word) || Continues(line[1..])
  {
    hide ContinuesWord;
    if Continues(line[1..]) {
      var i :| 0 <= i < |line[1..]| && ContinuesWord(line[1..][i].word);
      assert ContinuesWord(line[i + 1].word);
    }
    if i :| 0 < i < |line| && ContinuesWord(line[i].word) {
      assert ContinuesWord(line[1..][i - 1].word);
    }
  }

  lemma {:induction false} WordsAreThere(line: seq<Spaced>)
    requires LineOk(line)
    ensures forall i :: 0 <= i < |line| ==> line[i].word != []
  {
    if line != [] {
      WordsAreThere(line[1..]);
      assert line == [line[0]] + line[1..];
    }
  }

  /** The words are those POSIX quoting gives exactly when no backslash stands before a newline outside single
    * quotes. */
  lemma SplitIsPosixIff(line: seq<Spaced>, end: string)
    requires LineOk(line) && GapOk(end)
    ensures Split(LineText(line) + end) == PosixWords(line) <==> !Continues(line)
  {
    hide Split, LineText, LineWords, PosixWords, Continues, Unterminated, LineOk, GapOk;
    SplitUndoesQuoting(line, end);
    WordsAreThere(line);
    LineShrinksIff(line);
  }

  lemma {:induction false} ItemsShowIt(items: seq<Item>)
    ensures Slashed('\n') in items ==> '\n' in ItemsText(items)
  {
    if items != [] {
      ItemsShowIt(items[1..]);
      assert items == [items[0]] + items[1..];
    }
  }

  lemma {:induction false} WordShowsIt(w: Word)
    ensures ContinuesWord(w) ==> '\n' in WordText(w)
  {
    if w != [] {
      WordShowsIt(w[1..]);
      ContinuesSplits(w);
      if w[0].DoubleQuoted? {
        ItemsShowIt(w[0].items);
      }
    }
  }

  lemma {:induction false} LineShowsIt(line: seq<Spaced>)
    ensures Continues(line) ==> '\n' in LineText(line)
  {
    hide ContinuesWord, WordText;
    if line != [] {
      WordShowsIt(line[0].word);
      LineShowsIt(line[1..]);
      ContinuesLater(line);
    }
  }

  /** A line that holds no newline, as every line that is analysed, splits just as POSIX quoting has it. */
  lemma OneLineIsPosix(line: seq<Spaced>, end: string)
    requires LineOk(line) && GapOk(end) && '\n' !in LineText(line)
    ensures Split(LineText(line) + end) == PosixWords(line)
  {
    hide Split, LineText, PosixWords, Continues, LineOk, GapOk;
    LineShowsIt(line);
    SplitIsPosixIff(line, end);
  }
}
