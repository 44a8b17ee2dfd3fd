/** The language of fonts.alias files: how a byte string falls into tokens and pairs, what installalias
    writes for a pair, and exactly which pairs survive being written and read again. */
module AliasLanguage {
  import opened Machine

  const TAB: Byte := 9
  const NL: Byte := 10
  const SPACE: Byte := 32
  const DQUOTE: Byte := 34
  const BACKSLASH: Byte := 92
  const MAXFONTNAMELEN := 1024

  // ---------- Tokens ----------

  datatype Class = Quote | White | Normal | End | NewLine

  /** What lexc reads at the front of the input: its class, the character (-1 for EOF) and how many
      bytes it takes. */
  datatype Item = Item(cls: Class, c: int, width: nat)

  function Lexc(s: Bytes): (i: Item)
    ensures i.width <= |s| && (if i.cls.End? then i.c == -1 else 0 <= i.c < 256 && i.width > 0)
    ensures i.cls.NewLine? ==> i.width == 1
  {
    if s == [] then Item(End, -1, 0)
    else if s[0] == BACKSLASH then
      if |s| == 1 then Item(End, -1, 1) else Item(Normal, s[1], 2)
    else if s[0] == DQUOTE then Item(Quote, s[0], 1)
    else if s[0] == SPACE || s[0] == TAB then Item(White, s[0], 1)
    else if s[0] == NL then Item(NewLine, s[0], 1)
    else Item(Normal, s[0], 1)
  }

  datatype State = Begin | InWord | Quoted

  datatype Kind = Name | Newline | Done

  /** A token, how many bytes it takes, and whether the last of them is a blank that ended it. */
  datatype Lexed = Lexed(kind: Kind, token: Bytes, used: nat, blank: bool)

  function After(pre: Bytes, n: nat, r: Lexed): Lexed {
    Lexed(r.kind, pre + r.token, n + r.used, r.blank)
  }

  /** Whether the token is complete at this item. A newline ends a word even inside quotes. */
  predicate Stops(cls: Class, st: State) {
    cls.End? || cls.NewLine? || (cls.White? && st.InWord?)
  }

  function Last(i: Item, st: State): Lexed {
    if st.Begin? then Lexed(if i.cls.End? then Done else Newline, [], i.width, false)
    else if i.cls.NewLine? then Lexed(Name, [], 0, false)   // left in the input
    else Lexed(Name, [], i.width, i.cls.White?)
  }

  /** What an item adds to the token, and the state after it. Quotes may come anywhere in a word. */
  function Emit(i: Item, st: State): Bytes
    requires !i.cls.End? ==> 0 <= i.c < 256
  {
    if i.cls.Normal? || (i.cls.White? && st.Quoted?) then [i.c] else []
  }

  function Next(cls: Class, st: State): State {
    match cls
    case Quote => if st.Quoted? then InWord else Quoted
    case Normal => if st.Begin? then InWord else st
    case _ => st
  }

  /** The token at the front of s. */
  function Lex(s: Bytes, st: State): (r: Lexed)
    ensures |r.token| <= r.used <= |s|
    ensures !st.Begin? ==> r.kind.Name?
    ensures st.Begin? && (s != [] || !r.kind.Done?) ==> r.used > 0
    ensures r.kind.Done? ==> r.used == |s|
    ensures r.kind.Newline? ==> r.used > 0
    decreases |s|
  {
    var i := Lexc(s);
    if Stops(i.cls, st) then Last(i, st)
    else After(Emit(i, st), i.width, Lex(s[i.width..], Next(i.cls, st)))
  }

  lemma LexStep(s: Bytes, st: State)
    ensures var i := Lexc(s);
      Lex(s, st) == if Stops(i.cls, st) then Last(i, st)
                    else After(Emit(i, st), i.width, Lex(s[i.width..], Next(i.cls, st)))
  {
  }

  /** A newline token takes the input up to a newline. */
  lemma {:induction false} NewlineTaken(s: Bytes, st: State)
    ensures var r := Lex(s, st); r.kind.Newline? ==> r.used > 0 && s[r.used - 1] == NL
    decreases |s|
  {
    hide Lex, Emit, Next;
    var i := Lexc(s);
    LexStep(s, st);
    if !Stops(i.cls, st) {
      NewlineTaken(s[i.width..], Next(i.cls, st));
    }
  }

  // ---------- Pairs ----------

  /** strlcpy into a name buffer. */
  function Truncate(b: Bytes): (s: Bytes)
    ensures s <= b && |s| < MAXFONTNAMELEN && (s == b || |s| == MAXFONTNAMELEN - 1)
  {
    if |b| < MAXFONTNAMELEN then b else b[..MAXFONTNAMELEN - 1]
  }

  predicate Upper(c: Byte) {
    0x41 <= c <= 0x5a || 0xc0 <= c <= 0xd6 || 0xd8 <= c <= 0xde
  }

  /** ISOLatin1ToLower. The capitals go to the small letters, range by range. */
  function ToLower(c: Byte): (d: Byte)
    ensures !Upper(d) && (d == c <==> !Upper(c))
    ensures (0x41 <= c <= 0x5a ==> 0x61 <= d <= 0x7a) && (0xc0 <= c <= 0xd6 ==> 0xe0 <= d <= 0xf6)
    ensures 0xd8 <= c <= 0xde ==> 0xf8 <= d <= 0xfe
  {
    if Upper(c) then c + 0x20 else c
  }

  /** And keep their order, so that each capital goes to its own small letter. */
  lemma ToLowerIncreases(c: Byte, d: Byte)
    requires Upper(c) && Upper(d) && c < d
    ensures ToLower(c) < ToLower(d)
    ensures ToLower(0x41) == 0x61 && ToLower(0xc0) == 0xe0 && ToLower(0xd8) == 0xf8
  {
  }

  function Lower(b: Bytes): (r: Bytes)
    ensures |r| == |b| && forall i :: 0 <= i < |b| ==> r[i] == ToLower(b[i])
  {
    if b == [] then [] else [ToLower(b[0])] + Lower(b[1..])
  }

  /** The next alias and font name and how many bytes they take, or the end of the file. */
  datatype Read = Closed | Pair(alias: Bytes, font: Bytes, used: nat)

  /** What ReadAliases returns: a line that has only one name on it is passed over. */
  function ReadPair(s: Bytes): (r: Read)
    ensures r.Pair? ==> 0 < r.used <= |s|
    decreases |s|
  {
    var r1 := Lex(s, Begin);
    match r1.kind
    case Done => Closed
    case Newline => Skip(r1.used, ReadPair(s[r1.used..]))
    case Name =>
      var r2 := Lex(s[r1.used..], Begin);
      match r2.kind
      case Done => Closed
      case Newline => Skip(r1.used + r2.used, ReadPair(s[r1.used + r2.used..]))
      case Name => PairOf(r1, r2)
  }

  /** The alias is cut to fit its buffer; both names end at a NUL and are lowered. */
  function PairOf(r1: Lexed, r2: Lexed): Read {
    Pair(Lower(Truncate(CString(r1.token))), Lower(CString(r2.token)), r1.used + r2.used)
  }

  lemma ReadPairStep(s: Bytes, r1: Lexed, r2: Lexed)
    requires r1 == Lex(s, Begin) && r2 == Lex(s[r1.used..], Begin)
    ensures
      && (r1.kind.Newline? ==> ReadPair(s) == Skip(r1.used, ReadPair(s[r1.used..])))
      && (r1.kind.Name? && r2.kind.Newline? ==> ReadPair(s) == Skip(r1.used + r2.used, ReadPair(s[r1.used + r2.used..])))
      && (r1.kind.Name? && r2.kind.Name? ==> ReadPair(s) == PairOf(r1, r2))
      && (r1.kind.Done? || (r1.kind.Name? && r2.kind.Done?) ==> ReadPair(s) == Closed)
  {
    hide Lex, PairOf, Skip;
  }

  function Skip(n: nat, r: Read): Read {
    if r.Closed? then Closed else Pair(r.alias, r.font, n + r.used)
  }

  datatype Entry = Entry(alias: Bytes, font: Bytes)

  /** All pairs of a file. */
  function ReadAll(s: Bytes): seq<Entry>
    decreases |s|
  {
    match ReadPair(s)
    case Closed => []
    case Pair(a, f, used) => [Entry(a, f)] + ReadAll(s[used..])
  }

  /** The reader copies a font name into a buffer of this size without looking at its length. */
  predicate Fits(font: Bytes) {
    |font| < MAXFONTNAMELEN
  }

  ghost predicate FontsFit(es: seq<Entry>) {
    forall e :: e in es ==> Fits(e.font)
  }

  // ---------- The writer ----------

  /** The pairs that are passed on: not those of a name with itself, and not those whose font is not
      found; found tells of the n-th pair and later ones. */
  function Kept(es: seq<Entry>, found: nat -> bool, n: nat): seq<Entry> {
    if es == [] then []
    else
      var e := Entry(es[0].alias, Truncate(es[0].font));
      (if e.alias != e.font && found(n) then [e] else []) + Kept(es[1..], found, n + 1)
  }

  /** Pair number i is passed on. */
  predicate PassedOn(es: seq<Entry>, found: nat -> bool, n: nat, i: nat, e: Entry) {
    i < |es| && e == Entry(es[i].alias, Truncate(es[i].font)) && e.alias != e.font && found(n + i)
  }

  lemma PassedOnLater(es: seq<Entry>, found: nat -> bool, n: nat, i: nat, e: Entry)
    requires es != []
    ensures PassedOn(es, found, n, i + 1, e) <==> PassedOn(es[1..], found, n + 1, i, e)
  {
  }

  lemma {:induction false} KeptArePassedOn(es: seq<Entry>, found: nat -> bool, n: nat, e: Entry) returns (i: nat)
    requires e in Kept(es, found, n)
    ensures PassedOn(es, found, n, i, e)
  {
    hide Truncate;
    var c := Entry(es[0].alias, Truncate(es[0].font));
    i := 0;
    if !(e == c && c.alias != c.font && found(n)) {
      i := KeptArePassedOn(es[1..], found, n + 1, e);
      PassedOnLater(es, found, n, i, e);
      i := i + 1;
    }
  }

  lemma {:induction false} PassedOnAreKept(es: seq<Entry>, found: nat -> bool, n: nat, i: nat, e: Entry)
    requires PassedOn(es, found, n, i, e)
    ensures e in Kept(es, found, n)
  {
    hide Truncate;
    if i > 0 {
      PassedOnLater(es, found, n, i - 1, e);
      PassedOnAreKept(es[1..], found, n + 1, i - 1, e);
    }
  }

  /** Exactly those pairs are kept. */
  lemma KeptExactly(es: seq<Entry>, found: nat -> bool, e: Entry)
    ensures e in Kept(es, found, 0) <==> exists i: nat :: PassedOn(es, found, 0, i, e)
  {
    hide Kept, PassedOn;
    if e in Kept(es, found, 0) { var _ := KeptArePassedOn(es, found, 0, e); }
    if i: nat :| PassedOn(es, found, 0, i, e) { PassedOnAreKept(es, found, 0, i, e); }
  }

  function Line(e: Entry): (l: Bytes)
    ensures |l| >= |e.alias| + |e.font| + 4
  {
    (if SPACE in e.alias then [DQUOTE] + e.alias + [DQUOTE] else e.alias) + [TAB, DQUOTE] + e.font + [DQUOTE, NL]
  }

  function WriteAll(es: seq<Entry>): Bytes {
    if es == [] then [] else Line(es[0]) + WriteAll(es[1..])
  }

  predicate Special(c: Byte) {
    c == DQUOTE || c == BACKSLASH || c == NL
  }

  predicate Blank(c: Byte) {
    c == SPACE || c == TAB
  }

  predicate Plain(b: Bytes) {
    forall c :: c in b ==> !Special(c)
  }

  predicate NoBlank(b: Bytes) {
    forall c :: c in b ==> !Blank(c)
  }

  /** A name a caller can hold: lower-case, no NUL. */
  predicate Text(b: Bytes) {
    forall c :: c in b ==> c != 0 && !Upper(c)
  }

  /** The writer neither escapes nor quotes against tabs: an alias it can write is not empty, has no
      special character, and has a tab only next to a space. */
  predicate Writable(e: Entry) {
    e.alias != [] && Plain(e.alias) && Plain(e.font) && (SPACE in e.alias || TAB !in e.alias)
  }

  // ---------- Lexing plain text ----------

  lemma LexPlainByte(c: Byte, s: Bytes, st: State)
    requires !Special(c) && (st.Quoted? || !Blank(c))
    ensures Lex([c] + s, st) == After([c], 1, Lex(s, if st.Begin? then InWord else st))
  {
    hide Lex;
    LexStep([c] + s, st);
    assert ([c] + s)[1..] == s;
  }

  lemma {:induction false} LexPlain(t: Bytes, s: Bytes, st: State)
    requires Plain(t) && (st.Quoted? || NoBlank(t))
    ensures Lex(t + s, st) == After(t, |t|, Lex(s, if t != [] && st.Begin? then InWord else st))
  {
    hide Lex, Special, Blank;
    if t == [] {
      assert t + s == s;
    } else {
      var c, u := t[0], t[1..];
      assert c in t && t == [c] + u && t + s == [c] + (u + s);
      LexPlainByte(c, u + s, st);
      LexPlain(u, s, if st.Begin? then InWord else st);
    }
  }

  /** A plain text between quotes is one token up to where the next lexeme ends it. */
  lemma LexQuoted(t: Bytes, c: Byte, s: Bytes)
    requires Plain(t) && (Blank(c) || c == NL)
    ensures Lex([DQUOTE] + t + [DQUOTE, c] + s, Begin) == Lexed(Name, t, |t| + (if c == NL then 2 else 3), c != NL)
  {
    hide Lex;
    var tail := [DQUOTE, c] + s;
    var all := [DQUOTE] + t + [DQUOTE, c] + s;
    assert all[1..] == t + tail;
    LexStep(all, Begin);
    LexPlain(t, tail, Quoted);
    LexStep(tail, Quoted);
    assert tail[1..] == [c] + s;
    LexStep([c] + s, InWord);
    assert t + [] == t;
  }

  // ---------- Words ----------

  /** A character of a word, as it is or behind a backslash. */
  datatype Letter = Letter(c: Byte, escaped: bool) {
    function Spelling(): Bytes { if escaped then [BACKSLASH, c] else [c] }
  }

  /** A part of a word: a letter, or any number of them between quotes. */
  datatype Piece = Bare(l: Letter) | Between(ls: seq<Letter>) {
    function Spelling(): Bytes { if Bare? then l.Spelling() else [DQUOTE] + Spelled(ls) + [DQUOTE] }
    function Meaning(): Bytes { if Bare? then [l.c] else Meant(ls) }
  }

  /** Without a backslash no special character stands for itself, and a blank only between quotes. */
  predicate Stands(l: Letter, quoted: bool) {
    l.escaped || (!Special(l.c) && (quoted || !Blank(l.c)))
  }

  predicate Proper(p: Piece) {
    match p
    case Bare(l) => Stands(l, false)
    case Between(ls) => forall l :: l in ls ==> Stands(l, true)
  }

  function Spelled(ls: seq<Letter>): Bytes {
    if ls == [] then [] else ls[0].Spelling() + Spelled(ls[1..])
  }

  function Meant(ls: seq<Letter>): Bytes {
    if ls == [] then [] else [ls[0].c] + Meant(ls[1..])
  }

  /** How a word is written, and what it says. */
  function Spelling(ps: seq<Piece>): Bytes {
    if ps == [] then [] else ps[0].Spelling() + Spelling(ps[1..])
  }

  function Meaning(ps: seq<Piece>): Bytes {
    if ps == [] then [] else ps[0].Meaning() + Meaning(ps[1..])
  }

  lemma AfterAfter(a: Bytes, m: nat, b: Bytes, n: nat, r: Lexed)
    ensures After(a, m, After(b, n, r)) == After(a + b, m + n, r)
    ensures After([], 0, r) == r
  {
    assert a + (b + r.token) == (a + b) + r.token && [] + r.token == r.token;
  }

  lemma Regroup(a: Bytes, b: Bytes, s: Bytes)
    ensures (a + b) + s == a + (b + s)
  {
  }

  lemma LexLetter(l: Letter, s: Bytes, st: State)
    requires Stands(l, st.Quoted?)
    ensures Lex(l.Spelling() + s, st) == After([l.c], |l.Spelling()|, Lex(s, if st.Begin? then InWord else st))
  {
    hide Lex;
    if l.escaped {
      LexStep([BACKSLASH, l.c] + s, st);
      assert ([BACKSLASH, l.c] + s)[2..] == s;
    } else {
      LexPlainByte(l.c, s, st);
    }
  }

  lemma {:induction false} LexLetters(ls: seq<Letter>, s: Bytes)
    requires forall l :: l in ls ==> Stands(l, true)
    ensures Lex(Spelled(ls) + s, Quoted) == After(Meant(ls), |Spelled(ls)|, Lex(s, Quoted))
  {
    hide Lex, Stands, After;
    if ls == [] {
      assert [] + s == s;
      AfterAfter([], 0, [], 0, Lex(s, Quoted));
    } else {
      Regroup(ls[0].Spelling(), Spelled(ls[1..]), s);
      LexLetter(ls[0], Spelled(ls[1..]) + s, Quoted);
      LexLetters(ls[1..], s);
      AfterAfter([ls[0].c], |ls[0].Spelling()|, Meant(ls[1..]), |Spelled(ls[1..])|, Lex(s, Quoted));
    }
  }

  lemma LexQuote(s: Bytes, st: State)
    ensures Lex([DQUOTE] + s, st) == After([], 1, Lex(s, if st.Quoted? then InWord else Quoted))
  {
    hide Lex;
    LexStep([DQUOTE] + s, st);
    assert ([DQUOTE] + s)[1..] == s;
  }

  lemma LexPiece(p: Piece, s: Bytes, st: State)
    requires Proper(p) && !st.Quoted?
    ensures Lex(p.Spelling() + s, st) == After(p.Meaning(), |p.Spelling()|, Lex(s, InWord))
  {
    hide Lex, Stands, After, Spelled, Meant;
    match p
    case Bare(l) =>
      LexLetter(l, s, st);
    case Between(ls) =>
      var r := Lex(s, InWord);
      assert p.Spelling() + s == [DQUOTE] + (Spelled(ls) + ([DQUOTE] + s));
      LexQuote(Spelled(ls) + ([DQUOTE] + s), st);
      LexLetters(ls, [DQUOTE] + s);
      LexQuote(s, Quoted);
      AfterAfter(Meant(ls), |Spelled(ls)|, [], 1, r);
      AfterAfter([], 1, Meant(ls), |Spelled(ls)| + 1, r);
      assert Meant(ls) + [] == Meant(ls) && [] + Meant(ls) == Meant(ls);
  }

  lemma {:induction false} LexPieces(ps: seq<Piece>, s: Bytes, st: State)
    requires (forall p :: p in ps ==> Proper(p)) && !st.Quoted?
    ensures Lex(Spelling(ps) + s, st) == After(Meaning(ps), |Spelling(ps)|, Lex(s, if ps == [] then st else InWord))
  {
    hide Lex, Proper, After;
    if ps == [] {
      assert [] + s == s;
      AfterAfter([], 0, [], 0, Lex(s, st));
    } else {
      Regroup(ps[0].Spelling(), Spelling(ps[1..]), s);
      LexPiece(ps[0], Spelling(ps[1..]) + s, st);
      LexPieces(ps[1..], s, InWord);
      AfterAfter(ps[0].Meaning(), |ps[0].Spelling()|, Meaning(ps[1..]), |Spelling(ps[1..])|, Lex(s, InWord));
    }
  }

  lemma {:induction false} LexBlanks(bs: Bytes, s: Bytes)
    requires forall b :: b in bs ==> Blank(b)
    ensures Lex(bs + s, Begin) == After([], |bs|, Lex(s, Begin))
  {
    hide Lex, After;
    if bs == [] {
      assert [] + s == s;
      AfterAfter([], 0, [], 0, Lex(s, Begin));
    } else {
      AfterAfter([], 1, [], |bs| - 1, Lex(s, Begin));
      assert bs[0] in bs && (bs + s)[1..] == bs[1..] + s;
      LexStep(bs + s, Begin);
      LexBlanks(bs[1..], s);
      var none: Bytes := [];
      assert Lex(bs + s, Begin) == After(none, 1, Lex(bs[1..] + s, Begin));
      assert none + none == none;
    }
  }

  lemma WordEnds(s: Bytes)
    requires s == [] || Blank(s[0]) || s[0] == NL
    ensures var blank := s != [] && Blank(s[0]); Lex(s, InWord) == Lexed(Name, [], if blank then 1 else 0, blank)
  {
  }

  /** Blanks, a word made of any pieces, and a blank, a newline or the end of the file: the token is what
      the word says, and only a blank is taken with it. */
  lemma WordIsRead(bs: Bytes, ps: seq<Piece>, s: Bytes)
    requires (forall b :: b in bs ==> Blank(b)) && (forall p :: p in ps ==> Proper(p))
    requires ps != [] && (s == [] || Blank(s[0]) || s[0] == NL)
    ensures var blank := s != [] && Blank(s[0]);
      Lex(bs + Spelling(ps) + s, Begin) == Lexed(Name, Meaning(ps), |bs| + |Spelling(ps)| + (if blank then 1 else 0), blank)
  {
    hide Lex, Spelling, Meaning, Proper;
    assert bs + Spelling(ps) + s == bs + (Spelling(ps) + s);
    LexBlanks(bs, Spelling(ps) + s);
    LexPieces(ps, s, Begin);
    WordEnds(s);
    assert Meaning(ps) + [] == Meaning(ps) && [] + Meaning(ps) == Meaning(ps);
  }

  // ---------- Escapes ----------

  /** Every character behind a backslash, and the whole between quotes. */
  function Escaped(t: Bytes): Bytes {
    if t == [] then [] else [BACKSLASH, t[0]] + Escaped(t[1..])
  }

  lemma {:induction false} LexEscaped(t: Bytes, s: Bytes, st: State)
    requires !st.Begin?
    ensures Lex(Escaped(t) + s, st) == After(t, 2 * |t|, Lex(s, st))
  {
    hide Lex, Escaped;
    EscapedFront(t, s);
    if t != [] {
      LexEscapedByte(t[0], Escaped(t[1..]) + s, st);
      LexEscaped(t[1..], s, st);
      assert t == [t[0]] + t[1..];
    }
  }

  lemma EscapedFront(t: Bytes, s: Bytes)
    ensures Escaped(t) + s == if t == [] then s else [BACKSLASH, t[0]] + (Escaped(t[1..]) + s)
  {
  }

  lemma LexEscapedByte(c: Byte, s: Bytes, st: State)
    requires !st.Begin?
    ensures Lex([BACKSLASH, c] + s, st) == After([c], 2, Lex(s, st))
  {
    hide Lex;
    LexStep([BACKSLASH, c] + s, st);
    assert ([BACKSLASH, c] + s)[2..] == s;
  }

  /** The language can express every token, even an empty one or one with quotes and newlines in it. */
  lemma EveryTokenCanBeWritten(t: Bytes, s: Bytes)
    ensures Lex([DQUOTE] + Escaped(t) + [DQUOTE, TAB] + s, Begin) == Lexed(Name, t, 2 * |t| + 3, true)
  {
    hide Lex, Escaped;
    var tail := [DQUOTE, TAB] + s;
    var all := [DQUOTE] + Escaped(t) + [DQUOTE, TAB] + s;
    assert all[1..] == Escaped(t) + tail;
    assert tail[1..] == [TAB] + s;
    LexStep(all, Begin);
    LexEscaped(t, tail, Quoted);
    LexStep(tail, Quoted);
    LexStep([TAB] + s, InWord);
  }

  /** The two names on a line, for a pair that can be written. */
  lemma LineTokens(e: Entry, rest: Bytes)
    requires Writable(e)
    ensures var s := Line(e) + rest; var n := if SPACE in e.alias then |e.alias| + 3 else |e.alias| + 1;
      && |Line(e)| == n + |e.font| + 3
      && Lex(s, Begin) == Lexed(Name, e.alias, n, true)
      && Lex(s[n..], Begin) == Lexed(Name, e.font, |e.font| + 2, false)
      && s[n + |e.font| + 2..] == [NL] + rest
  {
    hide Lex, Plain;
    var a, f, s := e.alias, e.font, Line(e) + rest;
    var back := [DQUOTE] + f + [DQUOTE, NL] + rest;
    if SPACE in a {
      assert s == [DQUOTE] + a + [DQUOTE, TAB] + back;
      LexQuoted(a, TAB, back);
    } else {
      assert s == a + ([TAB] + back);
      LexWord(a, back);
    }
    LexQuoted(f, NL, rest);
    LineParts(e, rest);
  }

  /** A plain text without blanks is one token up to the tab after it. */
  lemma LexWord(t: Bytes, s: Bytes)
    requires t != [] && Plain(t) && NoBlank(t)
    ensures Lex(t + ([TAB] + s), Begin) == Lexed(Name, t, |t| + 1, true)
  {
    hide Lex;
    LexPlain(t, [TAB] + s, Begin);
    LexStep([TAB] + s, InWord);
    assert t + [] == t;
  }

  lemma LineParts(e: Entry, rest: Bytes)
    ensures var s := Line(e) + rest; var n := if SPACE in e.alias then |e.alias| + 3 else |e.alias| + 1;
      && |Line(e)| == n + |e.font| + 3
      && s[n..] == [DQUOTE] + e.font + [DQUOTE, NL] + rest
      && s[n + |e.font| + 2..] == [NL] + rest
  {
  }

  lemma {:induction false} TextKept(b: Bytes)
    requires Text(b)
    ensures CString(b) == b && Lower(b) == b
  {
    if b != [] {
      assert b[0] in b;
      TextKept(b[1..]);
    }
  }

  /** Reading the line written for a pair gives the pair, and leaves the newline. */
  lemma LineReadsBack(e: Entry, rest: Bytes)
    requires Text(e.alias) && Text(e.font) && |e.alias| < MAXFONTNAMELEN && Writable(e)
    ensures ReadPair(Line(e) + rest) == Pair(e.alias, e.font, |Line(e)| - 1)
  {
    LineTokens(e, rest);
    TextKept(e.alias);
    TextKept(e.font);
  }

  /** A whole file of such pairs reads back as it was written. */
  lemma {:induction false} FileReadsBack(es: seq<Entry>)
    requires forall e :: e in es ==> Text(e.alias) && Text(e.font) && |e.alias| < MAXFONTNAMELEN && Writable(e)
    ensures ReadAll(WriteAll(es)) == es
  {
    hide ReadPair, Lex, Line, Writable, Text;
    if es == [] {
      LastLine();
    } else {
      var e, rest := es[0], WriteAll(es[1..]);
      assert e in es;
      LineReadsBack(e, rest);
      LineEnd(e, rest);
      FileReadsBack(es[1..]);
      NewlineFirst(rest);
      NewlineFirst(WriteAll(es));
    }
  }

  lemma LineEnd(e: Entry, rest: Bytes)
    ensures var n := |Line(e)| - 1; n > 0 && (Line(e) + rest)[n..] == [NL] + rest
  {
  }

  lemma LastLine()
    ensures ReadAll([]) == [] && WriteAll([]) == []
  {
  }

  lemma NewlineFirst(s: Bytes)
    ensures ReadAll([NL] + s) == ReadAll(s)
  {
    hide Lex, ReadPair, PairOf;
    var t := [NL] + s;
    LexStep(t, Begin);
    assert t[1..] == s;
    ReadPairStep(t, Lex(t, Begin), Lex(s, Begin));
    var p := ReadPair(s);
    if p.Pair? { assert t[1 + p.used..] == s[p.used..]; }
  }

  // ---------- Nothing else reads back ----------

  /** A token takes at least its own characters and the blank that ends it, which comes last. After
      one that no blank ended there is no further name on the line. */
  lemma {:induction false} LeastUsed(s: Bytes, st: State)
    ensures var r := Lex(s, st);
      && r.used >= |r.token| + (if r.blank then 1 else 0)
      && (r.blank ==> Blank(s[r.used - 1]))
      && (r.kind.Name? && !r.blank ==> !Lex(s[r.used..], Begin).kind.Name?)
    decreases |s|
  {
    hide Lex;
    var i := Lexc(s);
    LexStep(s, st);
    if Stops(i.cls, st) {
      LexStep(s[Last(i, st).used..], Begin);
    } else {
      var r, t := Lex(s, st), s[i.width..];
      LeastUsed(t, Next(i.cls, st));
      assert t[r.used - i.width..] == s[r.used..];
    }
  }

  /** The characters of a token are among the bytes it takes. */
  lemma {:induction false} TokenFrom(s: Bytes, st: State)
    ensures var r := Lex(s, st); forall c :: c in r.token ==> c in s[..r.used]
    decreases |s|
  {
    hide Lex;
    var i := Lexc(s);
    LexStep(s, st);
    if !Stops(i.cls, st) {
      var r, t := Lex(s, st), s[i.width..];
      TokenFrom(t, Next(i.cls, st));
      assert s[..r.used] == s[..i.width] + t[..r.used - i.width];
    }
  }

  /** No byte besides its own characters, and a blank to end it. */
  predicate Tight(r: Lexed) {
    r.used == |r.token| + if r.blank then 1 else 0
  }

  /** A token that takes nothing more is plain. */
  lemma {:induction false} TightIsPlain(s: Bytes, st: State)
    requires Lex(s, st).kind.Name? && Tight(Lex(s, st))
    ensures var t := Lex(s, st).token;
      t == s[..|t|] && Plain(t) && (!st.Quoted? ==> NoBlank(t)) && (st.Begin? ==> t != [])
    decreases |s|
  {
    hide Lex;
    var i := Lexc(s);
    LexStep(s, st);
    if !Stops(i.cls, st) {
      LeastUsed(s[i.width..], Next(i.cls, st));
      TightIsPlain(s[1..], Next(i.cls, st));
    }
  }

  /** Two tokens in a row at j, which is where the pair that is read from s lies. */
  ghost predicate PairAt(s: Bytes, j: nat)
    requires ReadPair(s).Pair? && j <= |s|
  {
    var p, r1 := ReadPair(s), Lex(s[j..], Begin);
    var r2 := Lex(s[j + r1.used..], Begin);
    && r1.kind.Name? && r1.blank && r2.kind.Name?
    && p == Skip(j, PairOf(r1, r2))
  }

  lemma {:induction false} PairIsSomewhere(s: Bytes) returns (j: nat)
    requires ReadPair(s).Pair?
    ensures j <= |s| && PairAt(s, j)
    ensures j == 1 ==> Lex(s, Begin).kind.Newline?
    decreases |s|
  {
    hide Lex, ReadPair, PairOf, PairAt;
    var r1 := Lex(s, Begin);
    var r2 := Lex(s[r1.used..], Begin);
    ReadPairStep(s, r1, r2);
    if r1.kind.Name? && r2.kind.Name? {
      j := 0;
      PairAtOnce(s);
    } else {
      var n := if r1.kind.Newline? then r1.used else r1.used + r2.used;
      var t := s[n..];
      var k := PairIsSomewhere(t);
      j := n + k;
      PairFurtherOn(s, n, k);
    }
  }

  lemma PairAtOnce(s: Bytes)
    requires var r1 := Lex(s, Begin); r1.kind.Name? && Lex(s[r1.used..], Begin).kind.Name?
    ensures ReadPair(s).Pair? && PairAt(s, 0)
  {
    hide Lex, ReadPair;
    var r1 := Lex(s, Begin);
    ReadPairStep(s, r1, Lex(s[r1.used..], Begin));
    LeastUsed(s, Begin);
    assert s[0..] == s;
  }

  lemma PairFurtherOn(s: Bytes, n: nat, k: nat)
    requires n <= |s| && k <= |s| - n && ReadPair(s[n..]).Pair? && PairAt(s[n..], k)
    requires ReadPair(s) == Skip(n, ReadPair(s[n..]))
    ensures PairAt(s, n + k)
  {
    hide Lex, ReadPair, PairOf;
    var t := s[n..];
    assert t[k..] == s[n + k..];
    var r1 := Lex(t[k..], Begin);
    assert t[k + r1.used..] == s[n + k + r1.used..];
  }

  lemma TightEndsPlain(s: Bytes, st: State)
    requires Lex(s, st).kind.Name? && Tight(Lex(s, st)) && Lex(s, st).token != []
    ensures var n := |Lex(s, st).token|; !Special(s[n - 1])
  {
    TightIsPlain(s, st);
    hide Lex;
    var t := Lex(s, st).token;
    assert t[|t| - 1] in t;
  }

  /** A quoted text that takes one byte more than its characters and the blank: its closing quote. */
  lemma {:induction false} OneSpare(f: Bytes, tail: Bytes)
    requires var r := Lex(f + [DQUOTE] + tail, Quoted);
      r.token == f && r.used == |f| + 1 + if r.blank then 1 else 0
    ensures Plain(f)
    decreases |f|
  {
    hide Lex;
    var s := f + [DQUOTE] + tail;
    if f != [] {
      LexStep(s, Quoted);
      if f[0] == DQUOTE {
        assert s[1..][|f| - 1] == DQUOTE;
        TightEndsPlain(s[1..], InWord);
      } else if f[0] == BACKSLASH {
        assert |f| >= 2 && s[2..][|f| - 2] == DQUOTE;
        TightEndsPlain(s[2..], Quoted);
      } else {
        assert s[1..] == f[1..] + [DQUOTE] + tail;
        OneSpare(f[1..], tail);
        assert f == [f[0]] + f[1..];
      }
    }
  }

  /** The tokens a pair was read from, when the pair is one that could be written. */
  lemma TokensOf(e: Entry, rest: Bytes) returns (j: nat, r1: Lexed, r2: Lexed)
    requires Text(e.alias) && Text(e.font) && |e.alias| < MAXFONTNAMELEN
    requires ReadPair(Line(e) + rest) == Pair(e.alias, e.font, |Line(e)| - 1)
    ensures var s := Line(e) + rest;
      && j <= |s| && r1 == Lex(s[j..], Begin) && r2 == Lex(s[j + r1.used..], Begin)
      && r1.kind.Name? && r1.blank && r2.kind.Name? && r2.token == e.font
      && |e.alias| <= |r1.token| && (|r1.token| == |e.alias| ==> r1.token == e.alias)
      && j + r1.used + r2.used == |Line(e)| - 1
      && (j == 1 ==> Lex(s, Begin).kind.Newline?)
  {
    hide Lex, ReadPair, Line, Lower, CString;
    var s := Line(e) + rest;
    j := PairIsSomewhere(s);
    r1 := Lex(s[j..], Begin);
    r2 := Lex(s[j + r1.used..], Begin);
    LineIsText(e);
    TokenIsText(s, |Line(e)|, j);
    TokenIsText(s, |Line(e)|, j + r1.used);
    TextKept(r1.token);
    TextKept(r2.token);
    TextKept(Truncate(r1.token));
  }

  lemma LineIsText(e: Entry)
    requires Text(e.alias) && Text(e.font)
    ensures Text(Line(e))
  {
  }

  lemma TokenIsText(s: Bytes, n: nat, j: nat)
    requires j <= |s| && n <= |s| && Text(s[..n]) && j + Lex(s[j..], Begin).used <= n
    ensures Text(Lex(s[j..], Begin).token)
  {
    TokenFrom(s[j..], Begin);
    hide Lex;
    var r := Lex(s[j..], Begin);
    forall c | c in r.token ensures c in s[..n] {
      var i :| 0 <= i < r.used && s[j..][..r.used][i] == c;
      assert s[..n][j + i] == c;
    }
  }

  /** A token of n characters that would have to end in a special one takes more than n bytes. */
  lemma TakesMore(s: Bytes, n: nat)
    requires Lex(s, Begin).kind.Name? && |Lex(s, Begin).token| == n <= |s| && (n > 0 ==> Special(s[n - 1]))
    ensures Lex(s, Begin).used > n
  {
    LeastUsed(s, Begin);
    if Lex(s, Begin).used == n {
      TightIsPlain(s, Begin);
      TightEndsPlain(s, Begin);
    }
  }

  lemma FontIsPlain(f: Bytes, rest: Bytes)
    requires var r := Lex([DQUOTE] + f + [DQUOTE, NL] + rest, Begin); r.token == f && r.used == |f| + 2
    ensures Plain(f)
  {
    hide Lex;
    var s := [DQUOTE] + f + [DQUOTE, NL] + rest;
    LexStep(s, Begin);
    LeastUsed(s, Begin);
    assert s[1..] == f + [DQUOTE] + ([NL] + rest);
    assert s[|f| + 1] == DQUOTE;
    OneSpare(f, [NL] + rest);
  }

  lemma OnlyWritableUnquoted(e: Entry, rest: Bytes)
    requires SPACE !in e.alias && Text(e.alias) && Text(e.font) && |e.alias| < MAXFONTNAMELEN
    requires ReadPair(Line(e) + rest) == Pair(e.alias, e.font, |Line(e)| - 1)
    ensures Writable(e)
  {
    hide Lex, ReadPair, Text, Line, Plain;
    var a, f, s := e.alias, e.font, Line(e) + rest;
    var j, r1, r2 := TokensOf(e, rest);
    UnquotedParts(e, rest);
    LeastUsed(s[j..], Begin);
    var end := j + r1.used;
    assert s[j..][r1.used - 1] == s[end - 1];
    if end == |a| + 3 {
      assert |f| > 0 ==> s[end..][|f| - 1] == DQUOTE;
      TakesMore(s[end..], |f|);
    }
    assert j == 0 && Tight(r1);
    TightIsPlain(s, Begin);
    FontIsPlain(f, rest);
  }

  /** The parts of a line whose alias is not quoted. */
  lemma UnquotedParts(e: Entry, rest: Bytes)
    requires SPACE !in e.alias
    ensures var a, f, s := e.alias, e.font, Line(e) + rest;
      && |Line(e)| == |a| + |f| + 4 && s[0..] == s && s[|a| + 1] == s[|a| + |f| + 2] == DQUOTE
      && s[|a| + 1..] == [DQUOTE] + f + [DQUOTE, NL] + rest
  {
    var a, f, s := e.alias, e.font, Line(e) + rest;
    assert s == a + [TAB, DQUOTE] + f + [DQUOTE, NL] + rest;
  }

  /** In a line of two quoted texts of m and n characters with a tab between, a pair of names of at least
      m and of n characters that takes the whole line begins at the front, and the tab ends its first
      name, which then has m characters. */
  lemma QuotedAliasFirst(s: Bytes, m: nat, n: nat, j: nat)
    requires 0 < m && m + n + 6 <= |s| && j <= |s| && (j == 1 ==> Lex(s, Begin).kind.Newline?)
    requires s[0] == s[m + 1] == s[m + 3] == s[m + n + 4] == DQUOTE
    requires var r1 := Lex(s[j..], Begin); var r2 := Lex(s[j + r1.used..], Begin);
      && r1.kind.Name? && r1.blank && |r1.token| >= m && r2.kind.Name? && |r2.token| == n
      && j + r1.used + r2.used == m + n + 5
    ensures j == 0 && Lex(s[j..], Begin).used == m + 3 && |Lex(s[j..], Begin).token| == m
  {
    hide Lex;
    var t := s[j..];
    var r1 := Lex(t, Begin);
    LeastUsed(t, Begin);
    var end := j + r1.used;
    assert t[r1.used - 1] == s[end - 1];
    assert end != m + 2 && end != m + 4;
    LexStep(s, Begin);
    assert j != 1;
    if end == m + 5 {
      assert n > 0 ==> s[end..][n - 1] == DQUOTE;
      TakesMore(s[end..], n);
    } else if Tight(r1) {
      TightAlias(s, j, |r1.token|);
    } else if j == 0 {
      // the name begins behind the opening quote
      LeastUsed(s[1..], Quoted);
      assert s[0..] == s;
      if |r1.token| == m + 1 {
        TightEndsPlain(s[1..], Quoted);
      }
    }
  }

  /** A tight token has no special character at either end. */
  lemma TightAlias(s: Bytes, j: nat, n: nat)
    requires j <= |s| && 0 < n && var r := Lex(s[j..], Begin); r.kind.Name? && Tight(r) && |r.token| == n
    ensures j + n <= |s| && !Special(s[j]) && !Special(s[j + n - 1])
  {
    hide Lex;
    TightIsPlain(s[j..], Begin);
    var t := Lex(s[j..], Begin).token;
    assert t[0] in t && t[n - 1] in t && s[j..][..n][0] == s[j] && s[j..][..n][n - 1] == s[j + n - 1];
  }

  /** The parts of a line whose alias is quoted. */
  lemma QuotedParts(e: Entry, rest: Bytes)
    requires SPACE in e.alias
    ensures var a, f, s := e.alias, e.font, Line(e) + rest; var back := [DQUOTE] + f + [DQUOTE, NL] + rest;
      && |Line(e)| == |a| + |f| + 6 && s[0] == s[|a| + 1] == s[|a| + 3] == s[|a| + |f| + 4] == DQUOTE
      && s[0..] == s && s[1..] == a + [DQUOTE] + ([TAB] + back) && s[|a| + 3..] == back
  {
    var a, f, s := e.alias, e.font, Line(e) + rest;
    assert s == [DQUOTE] + a + [DQUOTE, TAB, DQUOTE] + f + [DQUOTE, NL] + rest;
  }

  lemma OnlyWritableQuoted(e: Entry, rest: Bytes)
    requires SPACE in e.alias && Text(e.alias) && Text(e.font) && |e.alias| < MAXFONTNAMELEN
    requires ReadPair(Line(e) + rest) == Pair(e.alias, e.font, |Line(e)| - 1)
    ensures Writable(e)
  {
    hide Lex, ReadPair, Text, Line, Plain;
    var a, f, s := e.alias, e.font, Line(e) + rest;
    var j, r1, r2 := TokensOf(e, rest);
    QuotedParts(e, rest);
    QuotedAliasFirst(s, |a|, |f|, j);
    LexStep(s, Begin);
    OneSpare(a, [TAB] + ([DQUOTE] + f + [DQUOTE, NL] + rest));
    FontIsPlain(f, rest);
  }

  /** The line written for a pair reads back as that pair exactly when the pair can be written. */
  lemma ReadsBackIffWritable(e: Entry, rest: Bytes)
    requires Text(e.alias) && Text(e.font) && |e.alias| < MAXFONTNAMELEN
    ensures ReadPair(Line(e) + rest) == Pair(e.alias, e.font, |Line(e)| - 1) <==> Writable(e)
  {
    hide ReadPair, Line, Writable, Text;
    if Writable(e) {
      LineReadsBack(e, rest);
    } else if ReadPair(Line(e) + rest) == Pair(e.alias, e.font, |Line(e)| - 1) {
      if SPACE in e.alias { OnlyWritableQuoted(e, rest); } else { OnlyWritableUnquoted(e, rest); }
    }
  }

  /** What is read is always text, so these conditions are the only ones on a pair that is passed on. */
  lemma {:induction false} ReadIsText(s: Bytes)
    requires ReadPair(s).Pair?
    ensures var p := ReadPair(s); Text(p.alias) && Text(p.font) && |p.alias| < MAXFONTNAMELEN
    decreases |s|
  {
    hide Lex, CString, Lower;
    var j := PairIsSomewhere(s);
    var r1 := Lex(s[j..], Begin);
    var r2 := Lex(s[j + r1.used..], Begin);
    LoweredIsText(r1.token);
    LoweredIsText(r2.token);
  }

  lemma {:induction false} NoNul(b: Bytes)
    ensures forall c :: c in CString(b) ==> c != 0
  {
    if b != [] { NoNul(b[1..]); }
  }

  lemma LoweredIsText(b: Bytes)
    ensures Text(Lower(CString(b))) && Text(Lower(Truncate(CString(b))))
  {
    NoNul(b);
    forall n: nat | n <= |CString(b)| ensures Text(Lower(CString(b)[..n])) {
      var t := CString(b)[..n];
      assert forall i :: 0 <= i < n ==> t[i] in CString(b) && Lower(t)[i] == ToLower(t[i]);
    }
  }

  ghost predicate AllText(es: seq<Entry>) {
    forall e :: e in es ==> Text(e.alias) && Text(e.font) && |e.alias| < MAXFONTNAMELEN && Fits(e.font)
  }

  lemma {:induction false} KeptIsText(s: Bytes, found: nat -> bool, n: nat)
    ensures AllText(Kept(ReadAll(s), found, n))
    decreases |s|
  {
    hide ReadPair;
    if ReadPair(s).Pair? {
      var p := ReadPair(s);
      ReadIsText(s);
      KeptIsText(s[p.used..], found, n + 1);
      var t := Truncate(p.font);
      assert forall c :: c in t ==> c in p.font;
      assert ReadAll(s) == [Entry(p.alias, p.font)] + ReadAll(s[p.used..]);
      assert ReadAll(s)[1..] == ReadAll(s[p.used..]);
    }
  }

  /** Whatever pairs a file has, if every one passed on can be written then the file written for them
      reads as just those pairs, and all their font names fit. */
  lemma RewrittenReadsBack(s: Bytes, found: nat -> bool)
    requires forall e :: e in Kept(ReadAll(s), found, 0) ==> Writable(e)
    ensures var es := Kept(ReadAll(s), found, 0); ReadAll(WriteAll(es)) == es && FontsFit(es)
  {
    hide ReadAll, Kept, Writable, Text;
    KeptIsText(s, found, 0);
    FileReadsBack(Kept(ReadAll(s), found, 0));
  }

  lemma LexQuoteByte(s: Bytes, st: State)
    ensures Lex([DQUOTE] + s, st) == After([], 1, Lex(s, if st.Quoted? then InWord else Quoted))
  {
    hide Lex;
    LexStep([DQUOTE] + s, st);
    assert ([DQUOTE] + s)[1..] == s;
  }

  lemma OnlyNewline()
    ensures Lex([NL], Begin) == Lexed(Newline, [], 1, false) && ReadAll([NL]) == []
    ensures forall st: State :: !st.Begin? ==> Lex([NL], st) == Lexed(Name, [], 0, false)
  {
    hide Lex, ReadPair;
    forall st: State ensures Lex([NL], st) == Last(Item(NewLine, NL, 1), st) { LexStep([NL], st); }
    LexStep([], Begin);
    var done := Lexed(Done, [], 0, false);
    ReadPairStep([], done, done);
    assert [NL][1..] == [];
    ReadPairStep([NL], Lexed(Newline, [], 1, false), done);
  }

  /** A line that begins with a quote which nothing closes in time: one name, and nothing after it. */
  lemma LexLostLine()
    ensures Lex([DQUOTE] + ([TAB] + ([DQUOTE] + ([121] + ([DQUOTE] + [NL])))), Begin) == Lexed(Name, [TAB, 121], 5, false)
  {
    hide Lex;
    OnlyNewline();
    LexQuoteByte([NL], InWord);
    LexPlainByte(121, [DQUOTE] + [NL], InWord);
    LexQuoteByte([121] + ([DQUOTE] + [NL]), Quoted);
    LexPlainByte(TAB, [DQUOTE] + ([121] + ([DQUOTE] + [NL])), Quoted);
    LexQuoteByte([TAB] + ([DQUOTE] + ([121] + ([DQUOTE] + [NL]))), Begin);
    assert [TAB] + ([121] + []) == [TAB, 121];
  }

  /** An escaped quote and a font name: a pair whose alias is a quote. */
  lemma ReadQuote()
    ensures ReadAll([BACKSLASH, DQUOTE, SPACE, 121, NL]) == [Entry([DQUOTE], [121])]
  {
    hide Lex, ReadPair;
    OnlyNewline();
    var s := [BACKSLASH, DQUOTE] + ([SPACE] + ([121] + [NL]));
    assert s == [BACKSLASH, DQUOTE, SPACE, 121, NL];
    LexPlainByte(121, [NL], Begin);
    LexStep(s, Begin);
    assert s[2..] == [SPACE] + ([121] + [NL]);
    LexStep([SPACE] + ([121] + [NL]), InWord);
    assert s[3..] == [121] + [NL] && s[4..] == [NL];
    ReadPairStep(s, Lexed(Name, [DQUOTE], 3, true), Lexed(Name, [121], 1, false));
    TextKept([DQUOTE]);
    TextKept([121]);
  }

  /** The condition is needed. In this file the alias is an escaped quote; it is passed on, the line
      written for it is not escaped, and the new file reads as no pair at all. */
  lemma QuoteIsLost(found: nat -> bool)
    requires found(0)
    ensures var es := Kept(ReadAll([BACKSLASH, DQUOTE, SPACE, 121, NL]), found, 0);
      es == [Entry([DQUOTE], [121])] && !Writable(es[0]) && ReadAll(WriteAll(es)) == []
  {
    hide Lex, ReadPair, ReadAll;
    ReadQuote();
    var e := Entry([DQUOTE], [121]);
    assert DQUOTE in e.alias && [e][1..] == [];
    assert Kept([e], found, 0) == [e];
    var l := [DQUOTE] + ([TAB] + ([DQUOTE] + ([121] + ([DQUOTE] + [NL]))));
    assert WriteAll([e]) == l;
    LexLostLine();
    assert l[5..] == [NL] && l[6..] == [];
    OnlyNewline();
    ReadPairStep(l, Lexed(Name, [TAB, 121], 5, false), Lexed(Newline, [], 1, false));
    NothingIsRead(l);
  }

  lemma NothingIsRead(s: Bytes)
    ensures ReadPair([]).Closed? && (ReadPair(s).Closed? ==> ReadAll(s) == [])
  {
    hide Lex;
    LexStep([], Begin);
  }

  /** A file of one pair, whose font name does not fit. */
  lemma LongFontDoesNotFit(font: Bytes)
    requires font == seq(MAXFONTNAMELEN, _ => 121)
    ensures ReadAll([120, TAB] + font + [NL]) == [Entry([120], font)] && !FontsFit(ReadAll([120, TAB] + font + [NL]))
  {
    hide Lex, ReadPair;
    var s := [120] + ([TAB] + (font + [NL]));
    assert s == [120, TAB] + font + [NL] && s[2..] == font + [NL] && s[2 + |font|..] == [NL];
    LexWord([120], font + [NL]);
    LexPlain(font, [NL], Begin);
    LexStep([NL], InWord);
    assert font + [] == font;
    TextKept([120]);
    TextKept(font);
    ReadPairStep(s, Lexed(Name, [120], 2, true), Lexed(Name, font, |font|, false));
    OnlyNewline();
    assert !Fits(font);
  }

  // ---------- Capitals ----------

  /** The file with the capitals lowered that have no backslash in front. */
  function Lowered(s: Bytes): (t: Bytes)
    ensures |t| == |s|
    decreases |s|
  {
    if s == [] then []
    else if s[0] == BACKSLASH then
      if |s| == 1 then s else [BACKSLASH, s[1]] + Lowered(s[2..])
    else [ToLower(s[0])] + Lowered(s[1..])
  }

  /** The two texts differ in capitals only. */
  predicate SameBut(a: Bytes, b: Bytes) {
    |a| == |b| && forall i :: 0 <= i < |a| ==> ToLower(a[i]) == ToLower(b[i])
  }

  /** The lowered file can be cut after n bytes like the file itself: they do not end in mid-escape. */
  ghost predicate Aligned(s: Bytes, n: nat) {
    n <= |s| && Lowered(s)[n..] == Lowered(s[n..])
  }

  lemma AlignedThen(s: Bytes, m: nat, n: nat)
    requires Aligned(s, m) && Aligned(s[m..], n)
    ensures Aligned(s, m + n) && s[m..][n..] == s[m + n..]
  {
    hide Lowered;
    var rest, low := s[m..], Lowered(s);
    assert rest[n..] == s[m + n..];
    assert low[m..][n..] == low[m + n..];
  }

  lemma AlignedStart(s: Bytes)
    ensures Aligned(s, 0)
  {
    assert s[0..] == s;
  }

  lemma LoweredParts(s: Bytes)
    requires s != []
    ensures var w := Lexc(s).width; var front := if s[0] == BACKSLASH then s[..w] else [ToLower(s[0])];
      |front| == w && Lowered(s) == front + Lowered(s[w..])
  {
    if s[0] == BACKSLASH {
      if |s| == 1 { assert s[1..] == [] && s[..1] == s; } else { assert s[..2] == [BACKSLASH, s[1]]; }
    }
  }

  lemma LoweredFront(s: Bytes)
    requires s != []
    ensures var i, j := Lexc(s), Lexc(Lowered(s));
      && i.cls == j.cls && i.width == j.width && Aligned(s, i.width)
      && (i.cls.End? || ToLower(j.c) == ToLower(i.c)) && (i.cls.White? ==> i.c == j.c)
  {
    hide Lowered;
    LoweredParts(s);
    var w := Lexc(s).width;
    var front := if s[0] == BACKSLASH then s[..w] else [ToLower(s[0])];
    assert (front + Lowered(s[w..]))[w..] == Lowered(s[w..]);
  }

  lemma SameAfter(a: Bytes, b: Bytes, x: Bytes, y: Bytes)
    requires SameBut(a, b) && SameBut(x, y)
    ensures SameBut(a + x, b + y)
  {
  }

  /** The two files have the same tokens in the same places, but for capitals. */
  lemma {:induction false} LexLowered(s: Bytes, st: State)
    ensures var r, t := Lex(s, st), Lex(Lowered(s), st);
      r.kind == t.kind && r.used == t.used && r.blank == t.blank && SameBut(r.token, t.token) && Aligned(s, r.used)
    decreases |s|
  {
    hide Lex, Lowered, Lexc, Next, SameBut, Aligned;
    LexStep(s, st);
    LexStep(Lowered(s), st);
    AlignedStart(s);
    EmptyFile(s);
    var i, j := Lexc(s), Lexc(Lowered(s));
    if s != [] { LoweredFront(s); }
    SameItem(i, j, st);
    if !Stops(i.cls, st) {
      var rest := s[i.width..];
      LowerRest(s, i.width);
      LexLowered(rest, Next(i.cls, st));
      var r, t := Lex(rest, Next(i.cls, st)), Lex(Lowered(rest), Next(i.cls, st));
      SameAfter(Emit(i, st), Emit(j, st), r.token, t.token);
      AlignedThen(s, i.width, r.used);
    }
  }

  lemma LowerRest(s: Bytes, n: nat)
    requires Aligned(s, n)
    ensures Lowered(s)[n..] == Lowered(s[n..])
  {
  }

  lemma EmptyFile(s: Bytes)
    ensures SameBut([], []) && (s == [] ==> Lowered(s) == [] && Lexc(s).cls.End? && Lexc(s).width == 0)
  {
  }

  lemma SameItem(i: Item, j: Item, st: State)
    requires i.cls == j.cls && (!i.cls.End? ==> 0 <= i.c < 256 && 0 <= j.c < 256 && ToLower(i.c) == ToLower(j.c))
    requires i.cls.White? ==> i.c == j.c
    ensures SameBut(Emit(i, st), Emit(j, st))
  {
  }

  lemma {:induction false} SameCString(a: Bytes, b: Bytes)
    requires SameBut(a, b)
    ensures SameBut(CString(a), CString(b))
  {
    if a != [] && a[0] != 0 {
      assert forall i :: 0 <= i < |a| - 1 ==> a[1..][i] == a[i + 1] && b[1..][i] == b[i + 1];
      SameCString(a[1..], b[1..]);
      SameAfter([a[0]], [b[0]], CString(a[1..]), CString(b[1..]));
    }
  }

  lemma SameIsRead(a: Bytes, b: Bytes)
    requires SameBut(a, b)
    ensures Lower(CString(a)) == Lower(CString(b)) && Lower(Truncate(CString(a))) == Lower(Truncate(CString(b)))
  {
    SameCString(a, b);
  }

  /** What is read of the two files, up to the same place. */
  ghost predicate ReadsAlike(s: Bytes, r: Read, t: Read) {
    r == t && (r.Pair? ==> Aligned(s, r.used))
  }

  lemma SkipAlike(s: Bytes, n: nat, r: Read, t: Read)
    requires Aligned(s, n) && ReadsAlike(s[n..], r, t)
    ensures ReadsAlike(s, Skip(n, r), Skip(n, t))
  {
    hide Aligned;
    if r.Pair? { AlignedThen(s, n, r.used); }
  }

  lemma PairAlike(s: Bytes, r1: Lexed, r2: Lexed, t1: Lexed, t2: Lexed)
    requires SameBut(r1.token, t1.token) && SameBut(r2.token, t2.token)
    requires r1.used == t1.used && r2.used == t2.used && Aligned(s, r1.used + r2.used)
    ensures ReadsAlike(s, PairOf(r1, r2), PairOf(t1, t2))
  {
    hide Aligned, SameBut, CString, Truncate, Lower;
    SameIsRead(r1.token, t1.token);
    SameIsRead(r2.token, t2.token);
  }

  /** Lowering them makes no difference to the pairs that are read. */
  lemma {:induction false} CapitalsDoNotMatter(s: Bytes)
    ensures ReadsAlike(s, ReadPair(s), ReadPair(Lowered(s)))
    decreases |s|
  {
    hide Lex, Lowered, SameBut, PairOf, Skip, ReadPair, Aligned;
    var r1, t1 := Lex(s, Begin), Lex(Lowered(s), Begin);
    LexLowered(s, Begin);
    var rest := s[r1.used..];
    LowerRest(s, r1.used);
    var r2, t2 := Lex(rest, Begin), Lex(Lowered(rest), Begin);
    LexLowered(rest, Begin);
    AlignedThen(s, r1.used, r2.used);
    LowerRest(s, r1.used + r2.used);
    ReadPairStep(s, r1, r2);
    ReadPairStep(Lowered(s), t1, t2);
    if r1.kind.Newline? {
      CapitalsDoNotMatter(rest);
      SkipAlike(s, r1.used, ReadPair(rest), ReadPair(Lowered(rest)));
    } else if r1.kind.Name? && r2.kind.Newline? {
      var more := s[r1.used + r2.used..];
      CapitalsDoNotMatter(more);
      SkipAlike(s, r1.used + r2.used, ReadPair(more), ReadPair(Lowered(more)));
    } else if r1.kind.Name? && r2.kind.Name? {
      PairAlike(s, r1, r2, t1, t2);
    }
  }

  /** Nor to all the pairs of the file. */
  lemma {:induction false} LoweredReadsTheSame(s: Bytes)
    ensures ReadAll(Lowered(s)) == ReadAll(s)
    decreases |s|
  {
    hide ReadPair, Lowered;
    CapitalsDoNotMatter(s);
    if ReadPair(s).Pair? {
      LowerRest(s, ReadPair(s).used);
      LoweredReadsTheSame(s[ReadPair(s).used..]);
    }
  }
}
