/** installalias reading an alias file and writing the new one. */
module AliasLexer {
  import opened AliasLanguage
  import opened Machine

  datatype Token = NAME | NEWLINE | DONE | EALLOC

  /** The size a buffer of this size has once a token of n characters and its NUL are in it. */
  function Capacity(size: nat, n: nat): (c: nat)
    ensures c > n && c >= size
    ensures c <= size || c <= 2 * n || c == 64
    decreases if n < size then 0 else n - size + 1
  {
    if n < size then size else Capacity(if size == 0 then 64 else 2 * size, n)
  }

  /** A size a token buffer can have: it only ever grows from nothing. */
  predicate BufferSize(size: nat) {
    size == 0 || Capacity(0, size - 1) == size
  }

  /** No buffer within the limit can hold a token of n characters. */
  predicate TooLong(n: nat, limit: nat) {
    Capacity(0, n) > limit
  }

  lemma {:induction false} CapacityThrough(start: nat, size: nat, n: nat)
    requires start < size <= n && Capacity(start, size - 1) == size
    ensures Capacity(start, n) == Capacity(size, n)
    decreases size - start
  {
    var next := if start == 0 then 64 else 2 * start;
    if next < size { CapacityThrough(next, size, n); }
  }

  /** The size a token needs does not depend on the tokens before it, but for what they made room for. */
  lemma CapacityFromNothing(size: nat, n: nat, limit: nat)
    requires BufferSize(size) && size <= limit
    ensures Capacity(size, n) > limit <==> TooLong(n, limit)
    ensures BufferSize(Capacity(size, n))
  {
    if n < size {
      CapacityMonotonic(0, n, size - 1);
    } else {
      if size > 0 { CapacityThrough(0, size, n); }
      CapacityReached(0, n);
    }
  }

  lemma GrownSize(size: nat)
    requires BufferSize(size)
    ensures BufferSize(if size == 0 then 64 else 2 * size)
  {
    if size > 0 {
      CapacityThrough(0, size, 2 * size - 1);
      assert Capacity(size, 2 * size - 1) == Capacity(2 * size, 2 * size - 1);
    } else {
      assert Capacity(0, 63) == Capacity(64, 63);
    }
  }

  lemma {:induction false} CapacityMonotonic(size: nat, m: nat, n: nat)
    requires m <= n
    ensures Capacity(size, m) <= Capacity(size, n)
    decreases if m < size then 0 else m - size + 1
  {
    if m >= size { CapacityMonotonic(if size == 0 then 64 else 2 * size, m, n); }
  }

  lemma {:induction false} CapacityReached(size: nat, n: nat)
    requires n >= size
    ensures Capacity(size, Capacity(size, n) - 1) == Capacity(size, n)
    decreases n - size
  {
    var next := if size == 0 then 64 else 2 * size;
    if n >= next { CapacityReached(next, n); }
  }

  /** What ReadAliases returns where buffers are limited: a token too long for any ends the reading. */
  function ReadWithin(s: Bytes, limit: nat): (r: Read)
    ensures r.Pair? ==> 0 < r.used <= |s|
    decreases |s|
  {
    var r1 := Lex(s, Begin);
    if r1.kind.Done? || TooLong(|r1.token|, limit) then Closed
    else if r1.kind.Newline? then Skip(r1.used, ReadWithin(s[r1.used..], limit))
    else
      var r2 := Lex(s[r1.used..], Begin);
      if r2.kind.Done? || TooLong(|r2.token|, limit) then Closed
      else if r2.kind.Newline? then Skip(r1.used + r2.used, ReadWithin(s[r1.used + r2.used..], limit))
      else PairOf(r1, r2)
  }

  function ReadAllWithin(s: Bytes, limit: nat): seq<Entry>
    decreases |s|
  {
    var p := ReadWithin(s, limit);
    if p.Closed? then [] else [Entry(p.alias, p.font)] + ReadAllWithin(s[p.used..], limit)
  }

  /** The limit only ever cuts the reading short, and not at all if it is large enough for the file. */
  lemma {:induction false} WithinIsRead(s: Bytes, limit: nat)
    ensures ReadWithin(s, limit).Pair? || 64 + 2 * |s| <= limit ==> ReadWithin(s, limit) == ReadPair(s)
    decreases |s|
  {
    hide Lex, PairOf;
    var r1 := Lex(s, Begin);
    var r2 := Lex(s[r1.used..], Begin);
    ReadPairStep(s, r1, r2);
    if r1.kind.Newline? { WithinIsRead(s[r1.used..], limit); }
    if r1.kind.Name? && r2.kind.Newline? { WithinIsRead(s[r1.used + r2.used..], limit); }
  }

  lemma {:induction false} AllWithinIsPrefix(s: Bytes, limit: nat)
    ensures ReadAllWithin(s, limit) <= ReadAll(s)
    ensures 64 + 2 * |s| <= limit ==> ReadAllWithin(s, limit) == ReadAll(s)
    decreases |s|
  {
    hide ReadWithin, ReadPair;
    WithinIsRead(s, limit);
    if ReadWithin(s, limit).Pair? { AllWithinIsPrefix(s[ReadPair(s).used..], limit); }
  }

  /** What is left of the token all: the text held so far, n bytes in, and the rest to be read in a state. */
  ghost predicate Remains(all: Lexed, held: Bytes, n: nat, s: Bytes, st: State) {
    all == After(held, n, Lex(s, st))
  }

  lemma AllRemains(s: Bytes)
    ensures Remains(Lex(s, Begin), [], 0, s, Begin)
  {
    assert [] + Lex(s, Begin).token == Lex(s, Begin).token;
  }

  lemma RemainsLess(all: Lexed, held: Bytes, n: nat, s: Bytes, st: State)
    requires Remains(all, held, n, s, st)
    ensures |held| <= |all.token|
    ensures var i := Lexc(s);
      if Stops(i.cls, st) then var l := Last(i, st); all == Lexed(l.kind, held, n + l.used, l.blank)
      else if Emit(i, st) == [] then Remains(all, held, n + i.width, s[i.width..], Next(i.cls, st))
      else Remains(all, held + Emit(i, st), n + i.width, s[i.width..], Next(i.cls, st))
  {
    hide Lex;
    LexStep(s, st);
    assert held + [] == held;
  }

  /** An open alias file, and the token buffer, which is kept from one token to the next. */
  class Lexer {
    const data: Bytes
    const limit: nat             // the largest buffer the system will give
    var pos: nat
    var charClass: Class
    var tokenBuf: array?<Byte>
    var tokenSize: nat

    ghost predicate Valid()
      reads this
    {
      && pos <= |data| && tokenSize <= limit && BufferSize(tokenSize)
      && (tokenBuf == null <==> tokenSize == 0) && (tokenBuf != null ==> tokenBuf.Length == tokenSize)
    }

    constructor (data: Bytes, limit: nat)
      ensures Valid() && pos == 0 && this.data == data && this.limit == limit
    {
      this.data, this.limit, pos, charClass, tokenBuf, tokenSize := data, limit, 0, End, null, 0;
    }

    method GetC() returns (c: int)
      requires pos <= |data|
      modifies this`pos
      ensures if old(pos) == |data| then c == -1 && pos == old(pos) else c == data[old(pos)] && pos == old(pos) + 1
    {
      if pos == |data| { return -1; }
      c, pos := data[pos], pos + 1;
    }

    /** lexc. */
    method LexC() returns (c: int)
      requires pos <= |data|
      modifies this`pos, this`charClass
      ensures var i := Lexc(data[old(pos)..]); c == i.c && charClass == i.cls && pos == old(pos) + i.width <= |data|
    {
      ghost var s := data[pos..];
      c := GetC();
      if c == -1 {
        charClass := End;
      } else if c == BACKSLASH {
        c := GetC();
        charClass := if c == -1 then End else Normal;
      } else if c == DQUOTE {
        charClass := Quote;
      } else if c == SPACE || c == TAB {
        charClass := White;
      } else if c == NL {
        charClass := NewLine;
      } else {
        charClass := Normal;
      }
    }

    /** realloc of a full token buffer; what it holds is kept. */
    method Grow() returns (ok: bool)
      requires Valid()
      modifies this`tokenBuf, this`tokenSize
      ensures var n := if old(tokenSize) == 0 then 64 else 2 * old(tokenSize);
        ok <==> n <= limit && (ok ==> tokenSize == n)
      ensures !ok ==> tokenBuf == old(tokenBuf) && tokenSize == old(tokenSize)
      ensures Valid() && (ok ==> fresh(tokenBuf))
      ensures ok && old(tokenBuf) != null ==> tokenBuf[..old(tokenSize)] == old(tokenBuf[..])
    {
      hide BufferSize, Capacity;
      GrownSize(tokenSize);
      var nsize := if tokenSize == 0 then 64 else 2 * tokenSize;
      if nsize > limit { return false; }
      var bigger := new Byte[nsize];
      var current := tokenBuf;
      if current != null {
        for i := 0 to tokenSize
          invariant tokenBuf == current && tokenSize == current.Length
          invariant bigger[..i] == current[..i] && current[..] == old(current[..])
        {
          bigger[i] := current[i];
        }
      }
      tokenBuf, tokenSize := bigger, nsize;
      ok := true;
    }

    ghost function Held(n: nat): (b: Bytes)
      requires n <= if tokenBuf == null then 0 else tokenBuf.Length
      reads this`tokenBuf, tokenBuf
      ensures |b| == n
    {
      if tokenBuf == null then [] else tokenBuf[..n]
    }

    /** The step before every character: room for one more. */
    method MakeRoom(count: nat) returns (ok: bool)
      requires Valid() && count <= tokenSize
      modifies this`tokenBuf, this`tokenSize
      ensures Valid() && (tokenBuf == old(tokenBuf) || fresh(tokenBuf))
      ensures ok ==> count < tokenSize && Held(count) == old(Held(count)) && Capacity(tokenSize, count) == tokenSize
      ensures forall n: nat :: n >= count ==> Capacity(tokenSize, n) == Capacity(old(tokenSize), n)
      ensures !ok ==> forall n: nat :: n >= count ==> Capacity(old(tokenSize), n) > limit
    {
      hide BufferSize;
      ok := true;
      if count == tokenSize { ok := Grow(); }
    }

    /** The cases of the switch that go on with the token. */
    method Absorb(cls: Class, c: int, ghost i: Item, count0: nat, st0: State) returns (count: nat, state: State)
      requires Valid() && count0 < tokenSize && !Stops(cls, st0) && 0 <= c < 256 && cls == i.cls && c == i.c
      modifies tokenBuf
      ensures Valid() && state == Next(i.cls, st0) && count0 <= count <= tokenSize
      ensures Held(count) == if Emit(i, st0) == [] then old(Held(count0)) else old(Held(count0)) + Emit(i, st0)
      ensures state.Begin? ==> count == count0
    {
      hide BufferSize;
      count, state := count0, st0;
      if cls.Quote? {
        state := if state.Quoted? then InWord else Quoted;
      } else if cls.Normal? || state.Quoted? {
        if state.Begin? { state := InWord; }
        tokenBuf[count] := c;
        count := count + 1;
      }
    }

    /** Ends the token with a NUL, and returns it. */
    method Finish(count: nat) returns (text: Bytes)
      requires Valid() && count < tokenSize
      modifies tokenBuf
      ensures Valid() && text == old(Held(count)) && Capacity(tokenSize, count) == tokenSize
    {
      hide BufferSize;
      tokenBuf[count] := 0;
      text := tokenBuf[..count];
    }

    /** lexAlias. The token is the one the language defines, wherever it lies in the file, and the buffer
        is never overrun; EALLOC comes exactly when no permitted buffer can hold the token. */
    method LexAlias() returns (token: Token, text: Bytes)
      requires Valid()
      modifies this`pos, this`charClass, this`tokenBuf, this`tokenSize, tokenBuf
      ensures Valid() && (tokenBuf == old(tokenBuf) || fresh(tokenBuf)) && pos >= old(pos)
      ensures var r := Lex(data[old(pos)..], Begin); var size := Capacity(old(tokenSize), |r.token|);
        if size > limit then token.EALLOC?
        else pos == old(pos) + r.used && text == r.token && tokenSize == size
             && token == match r.kind case Name => NAME case Newline => NEWLINE case Done => DONE
    {
      hide Lex, Capacity, Remains, Lexc, Emit, Held, BufferSize;
      var count, state := 0, Begin;
      ghost var all := Lex(data[pos..], Begin);
      AllRemains(data[pos..]);
      assert Held(0) == [];
      while true
        invariant Valid() && old(pos) <= pos && (tokenBuf == old(tokenBuf) || fresh(tokenBuf))
        invariant count <= tokenSize && (state.Begin? ==> count == 0)
        invariant Remains(all, Held(count), pos - old(pos), data[pos..], state)
        invariant Capacity(tokenSize, |all.token|) == Capacity(old(tokenSize), |all.token|)
        decreases |data| - pos
      {
        ghost var s := data[pos..];
        RemainsLess(all, Held(count), pos - old(pos), s, state);
        var ok := MakeRoom(count);
        if !ok { return EALLOC, []; }
        var c := LexC();
        assert s[Lexc(s).width..] == data[pos..];
        if charClass.White? && state.InWord? {
          text := Finish(count);
          return NAME, text;
        } else if charClass.End? || charClass.NewLine? {
          if state.Begin? { return if charClass.End? then DONE else NEWLINE, []; }
          text := Finish(count);
          // ungetc; pushing back EOF changes nothing
          if c != -1 { pos := pos - 1; }
          return NAME, text;
        }
        count, state := Absorb(charClass, c, Lexc(s), count, state);
      }
    }

    /** The same, with the buffer's history left out: whether a token is too long does not depend on it. */
    method NextToken() returns (token: Token, text: Bytes)
      requires Valid()
      modifies this`pos, this`charClass, this`tokenBuf, this`tokenSize, tokenBuf
      ensures Valid() && (tokenBuf == old(tokenBuf) || fresh(tokenBuf)) && pos >= old(pos)
      ensures var r := Lex(data[old(pos)..], Begin);
        if TooLong(|r.token|, limit) then token.EALLOC?
        else pos == old(pos) + r.used && text == r.token
             && token == match r.kind case Name => NAME case Newline => NEWLINE case Done => DONE
    {
      hide Lex, Capacity, BufferSize, TooLong;
      CapacityFromNothing(tokenSize, |Lex(data[pos..], Begin).token|, limit);
      token, text := LexAlias();
    }

    /** ReadAliases: the next pair that the limit on buffers lets it reach. overrun tells that its font
        name does not fit the caller's buffer; the program copies it all the same. */
    method ReadAliases() returns (got: Option<Entry>, overrun: bool)
      requires Valid()
      modifies this`pos, this`charClass, this`tokenBuf, this`tokenSize, tokenBuf
      ensures Valid() && (tokenBuf == old(tokenBuf) || fresh(tokenBuf))
      ensures var p := ReadWithin(data[old(pos)..], limit);
        && (overrun <==> p.Pair? && !Fits(p.font))
        && if p.Closed? || overrun then got.None? else got == Some(Entry(p.alias, p.font)) && pos == old(pos) + p.used
    {
      hide Lex, BufferSize, TooLong, ReadWithin, Truncate, CString, Lower, ReadsOn;
      ghost var all := ReadWithin(data[pos..], limit);
      AllReadsOn(data[pos..], limit);
      while true
        invariant Valid() && old(pos) <= pos && (tokenBuf == old(tokenBuf) || fresh(tokenBuf))
        invariant ReadsOn(all, pos - old(pos), data[pos..], limit)
        decreases |data| - pos
      {
        ReadsOnStep(all, pos - old(pos), data[pos..], limit);
        var token, text := NextToken();
        if token.DONE? || token.EALLOC? { return None, false; }
        if token.NAME? {
          var alias := Truncate(CString(text));
          token, text := NextToken();
          if token.DONE? || token.EALLOC? { return None, false; }
          if token.NAME? {
            if |CString(text)| >= MAXFONTNAMELEN { return None, true; }
            alias := CopyLowered(alias);
            var font := CopyLowered(CString(text));
            return Some(Entry(alias, font)), false;
          }
        }
      }
    }

    /** ProcessAliasFile: writes a line for every pair that is kept, unless a font name overruns its
        buffer. found(n) tells whether the font of the n-th pair can be opened. */
    method Rewrite(found: nat -> bool) returns (out: Bytes, overrun: bool)
      requires Valid()
      modifies this, tokenBuf
      ensures overrun <==> !FontsFit(ReadAllWithin(data[old(pos)..], limit))
      ensures !overrun ==> out == WriteAll(Kept(ReadAllWithin(data[old(pos)..], limit), found, 0))
    {
      hide WritesOn, LineFor, Line, Kept, WriteAll, ReadAllWithin, ReadWithin, Lex, Truncate, BufferSize, FontsFit, Fits;
      out := [];
      var n := 0;
      ghost var es := ReadAllWithin(data[pos..], limit);
      ghost var all := WriteAll(Kept(es, found, 0));
      AllWritesOn(data[pos..], limit, found);
      while true
        invariant Valid() && (tokenBuf == old(tokenBuf) || fresh(tokenBuf))
        invariant WritesOn(all, out, data[pos..], limit, found, n)
        invariant FontsFit(es) <==> FontsFit(ReadAllWithin(data[pos..], limit))
        decreases |data| - pos
      {
        WritesOnStep(all, out, data[pos..], limit, found, n);
        FitStep(data[pos..], limit);
        ghost var s := data[pos..];
        var got;
        got, overrun := ReadAliases();
        if got.None? { return; }
        assert data[pos..] == s[ReadWithin(s, limit).used..];
        var e := got.value;
        var saveFontName := Truncate(e.font);
        out := WriteEntry(out, Entry(e.alias, saveFontName), found(n));
        n := n + 1;
      }
    }
  }

  /** All font names fit exactly if the next does and those of the rest do. */
  lemma FitStep(s: Bytes, limit: nat)
    ensures var p := ReadWithin(s, limit);
      FontsFit(ReadAllWithin(s, limit)) <==>
        (p.Pair? ==> Fits(p.font) && FontsFit(ReadAllWithin(s[p.used..], limit)))
  {
    hide ReadWithin, Fits;
    var p := ReadWithin(s, limit);
    if p.Pair? {
      var rest := ReadAllWithin(s[p.used..], limit);
      assert ReadAllWithin(s, limit) == [Entry(p.alias, p.font)] + rest;
      assert Entry(p.alias, p.font) in [Entry(p.alias, p.font)] + rest;
      assert forall e :: e in rest ==> e in [Entry(p.alias, p.font)] + rest;
    }
  }

  /** The whole output is what has been written and what the rest gives. */
  ghost predicate WritesOn(all: Bytes, out: Bytes, s: Bytes, limit: nat, found: nat -> bool, n: nat) {
    all == out + WriteAll(Kept(ReadAllWithin(s, limit), found, n))
  }

  lemma AllWritesOn(s: Bytes, limit: nat, found: nat -> bool)
    ensures WritesOn(WriteAll(Kept(ReadAllWithin(s, limit), found, 0)), [], s, limit, found, 0)
  {
    hide ReadAllWithin, Kept, WriteAll;
    var w := WriteAll(Kept(ReadAllWithin(s, limit), found, 0));
    assert [] + w == w;
  }

  lemma WritesOnStep(all: Bytes, out: Bytes, s: Bytes, limit: nat, found: nat -> bool, n: nat)
    requires WritesOn(all, out, s, limit, found, n)
    ensures ReadWithin(s, limit).Closed? ==> all == out
    ensures var p := ReadWithin(s, limit); p.Pair? ==>
      WritesOn(all, out + LineFor(Entry(p.alias, Truncate(p.font)), found(n)), s[p.used..], limit, found, n + 1)
  {
    hide ReadWithin, Line, LineFor, Kept, WriteAll, Truncate;
    RewriteStep(s, limit, found, n);
    assert out + [] == out;
  }

  /** What ReadWithin gives from the start is what it gives for the rest, n bytes in. */
  ghost predicate ReadsOn(all: Read, n: nat, s: Bytes, limit: nat) {
    all == Skip(n, ReadWithin(s, limit))
  }

  lemma AllReadsOn(s: Bytes, limit: nat)
    ensures ReadsOn(ReadWithin(s, limit), 0, s, limit)
  {
    hide ReadWithin;
  }

  lemma ReadsOnStep(all: Read, n: nat, s: Bytes, limit: nat)
    requires ReadsOn(all, n, s, limit)
    ensures var r1 := Lex(s, Begin); var t := s[r1.used..]; var r2 := Lex(t, Begin);
      if r1.kind.Done? || TooLong(|r1.token|, limit) then all == Closed
      else if r1.kind.Newline? then ReadsOn(all, n + r1.used, t, limit)
      else if r2.kind.Done? || TooLong(|r2.token|, limit) then all == Closed
      else if r2.kind.Newline? then ReadsOn(all, n + r1.used + r2.used, t[r2.used..], limit)
      else all == Skip(n, PairOf(r1, r2))
  {
    hide Lex, TooLong, PairOf;
    var r1 := Lex(s, Begin);
    var t := s[r1.used..];
    var r2 := Lex(t, Begin);
    assert t[r2.used..] == s[r1.used + r2.used..];
  }

  /** copyISOLatin1Lowered. */
  method CopyLowered(source: Bytes) returns (dest: Bytes)
    ensures dest == Lower(source)
  {
    dest := [];
    for i := 0 to |source|
      invariant dest == Lower(source)[..i]
    {
      dest := dest + [ToLower(source[i])];
    }
  }

  method WriteEntry(out0: Bytes, e: Entry, found: bool) returns (out: Bytes)
    ensures out == out0 + LineFor(e, found)
  {
    out := out0;
    if e.alias == e.font {
      // a name is not passed on as an alias of itself
    } else if found {
      if SPACE in e.alias {
        out := out + [DQUOTE] + e.alias + [DQUOTE, TAB, DQUOTE] + e.font + [DQUOTE, NL];
      } else {
        out := out + e.alias + [TAB, DQUOTE] + e.font + [DQUOTE, NL];
      }
      assert out == out0 + Line(e);
    }
  }

  /** What is written for a pair. */
  function LineFor(e: Entry, found: bool): Bytes {
    if e.alias != e.font && found then Line(e) else []
  }

  lemma RewriteStep(s: Bytes, limit: nat, found: nat -> bool, n: nat)
    ensures ReadWithin(s, limit).Closed? ==> WriteAll(Kept(ReadAllWithin(s, limit), found, n)) == []
    ensures var p := ReadWithin(s, limit); p.Pair? ==>
      WriteAll(Kept(ReadAllWithin(s, limit), found, n)) ==
      LineFor(Entry(p.alias, Truncate(p.font)), found(n))
        + WriteAll(Kept(ReadAllWithin(s[p.used..], limit), found, n + 1))
  {
    hide ReadWithin, Line, Truncate;
    var p := ReadWithin(s, limit);
    if p.Pair? {
      var rest := ReadAllWithin(s[p.used..], limit);
      assert ReadAllWithin(s, limit) == [Entry(p.alias, p.font)] + rest;
      assert ReadAllWithin(s, limit)[1..] == rest;
      KeptStep(Entry(p.alias, p.font), rest, found, n);
    }
  }

  lemma KeptStep(e: Entry, rest: seq<Entry>, found: nat -> bool, n: nat)
    ensures WriteAll(Kept([e] + rest, found, n)) ==
      LineFor(Entry(e.alias, Truncate(e.font)), found(n)) + WriteAll(Kept(rest, found, n + 1))
  {
    hide Line, Truncate;
    var kept, c := Kept(rest, found, n + 1), Entry(e.alias, Truncate(e.font));
    assert ([e] + rest)[1..] == rest;
    assert ([c] + kept)[1..] == kept && [] + kept == kept;
  }
}
