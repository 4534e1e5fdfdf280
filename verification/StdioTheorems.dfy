/** How formats behave as a whole: splitting them, plain text, and percent signs. */
module StdioTheorems {
  import opened Arithmetic
  import opened KernelTypes
  import opened Numerals
  import opened Screen
  import opened ScreenTheorems
  import opened Stdio
  import opened Stdlib

  /** A piece that ends where `b` begins would be another piece with `b` behind it. */
  predicate Extends(last: Piece, b: seq<Char>) {
    b != [] && ((last == Literal('%') && CheckType(b[0])) || (last == Bits(false) && b[0] == '*'))
  }

  /** The last piece of `a` is read differently when `b` follows it. */
  predicate Continues(a: seq<Char>, b: seq<Char>) {
    a != [] && Extends(Parse(a)[|Parse(a)| - 1], b)
  }

  lemma HeadOfConcat(a: seq<Char>, b: seq<Char>)
    requires a != []
    ensures HeadLength(a) < |a| ==> Head(a + b) == Head(a) && HeadLength(a + b) == HeadLength(a)
    ensures HeadLength(a) == |a| ==> Parse(a) == [Head(a)]
    ensures HeadLength(a) == |a| && !Continues(a, b) ==> Head(a + b) == Head(a) && HeadLength(a + b) == |a|
    ensures HeadLength(a) == |a| && Continues(a, b) ==> Head(a + b) != Head(a)
  {
    FirstHead(a, b);
    if HeadLength(a) == |a| {
      hide Head, HeadLength, Extends;
      assert a[|a|..] == [];
      assert Parse(a) == [Head(a)];
    }
  }

  lemma FirstHead(a: seq<Char>, b: seq<Char>)
    requires a != []
    ensures HeadLength(a) < |a| || !Extends(Head(a), b) ==> Head(a + b) == Head(a) && HeadLength(a + b) == HeadLength(a)
    ensures HeadLength(a) == |a| && Extends(Head(a), b) ==> Head(a + b) != Head(a)
  {
    var ab := a + b;
    assert ab[0] == a[0];
    if |a| > 1 { assert ab[1] == a[1]; }
    if |a| > 2 { assert ab[2] == a[2]; }
  }

  lemma {:induction false} ContinuesTail(a: seq<Char>, b: seq<Char>)
    requires a != [] && HeadLength(a) < |a|
    ensures Continues(a, b) <==> Continues(a[HeadLength(a)..], b)
  {
    var rest := a[HeadLength(a)..];
    assert Parse(a) == [Head(a)] + Parse(rest);
    assert Parse(rest) != [];
  }

  /** A format may be cut in two exactly where no directive is cut. */
  lemma {:induction false} ParseConcat(a: seq<Char>, b: seq<Char>)
    ensures Parse(a + b) == Parse(a) + Parse(b) <==> !Continues(a, b)
    decreases |a|
  {
    hide Head, HeadLength, Continues, Parse;
    if a == [] {
      assert a + b == b;
      EmptyContinues(b);
    } else {
      HeadOfConcat(a, b);
      ParseCons(a + b);
      var k := HeadLength(a);
      var rest := a[k..];
      if k < |a| {
        ParseCons(a);
        ContinuesTail(a, b);
        ParseConcat(rest, b);
        assert (a + b)[k..] == rest + b;
        assert ([Head(a)] + Parse(rest)) + Parse(b) == [Head(a)] + (Parse(rest) + Parse(b));
        ConsEqual(Head(a), Parse(rest + b), Parse(rest) + Parse(b));
      } else if Continues(a, b) {
        assert (Parse(a) + Parse(b))[0] == Head(a) != Parse(a + b)[0];
      } else {
        assert (a + b)[|a|..] == b;
      }
    }
  }

  lemma ParseCons(f: seq<Char>)
    requires f != []
    ensures Parse(f) == [Head(f)] + Parse(f[HeadLength(f)..])
  {
  }

  lemma EmptyContinues(b: seq<Char>)
    ensures !Continues([], b) && Parse([]) == []
  {
  }

  lemma ConsEqual<T>(x: T, s: seq<T>, t: seq<T>)
    ensures [x] + s == [x] + t <==> s == t
  {
    assert ([x] + s)[1..] == s && ([x] + t)[1..] == t;
  }

  /** The sticky number of bits behind a run of pieces. */
  function BitsAfter(pieces: seq<Piece>, args: seq<Arg>, nbBits: int): int
    requires Fits(args, AllNeeds(pieces))
  {
    if pieces == [] then nbBits
    else
      FitsSplit(args, Needs(pieces[0]), AllNeeds(pieces[1..]));
      BitsAfter(pieces[1..], args[|Needs(pieces[0])|..], NewBits(pieces[0], args, nbBits))
  }

  lemma {:induction false} AllNeedsConcat(p: seq<Piece>, q: seq<Piece>)
    ensures AllNeeds(p + q) == AllNeeds(p) + AllNeeds(q)
    decreases |p|
  {
    if p == [] {
      assert p + q == q;
    } else {
      assert (p + q)[1..] == p[1..] + q;
      AllNeedsConcat(p[1..], q);
    }
  }

  /** Pieces are printed one after the other; only arguments and the number of bits carry over. */
  lemma {:induction false} RenderConcat(p: seq<Piece>, q: seq<Piece>, args: seq<Arg>, nbBits: int)
    requires Fits(args, AllNeeds(p + q))
    ensures Fits(args, AllNeeds(p)) && Fits(args[|AllNeeds(p)|..], AllNeeds(q))
    ensures Render(p + q, args, nbBits)
         == Render(p, args, nbBits) + Render(q, args[|AllNeeds(p)|..], BitsAfter(p, args, nbBits))
    decreases |p|
  {
    hide PieceText, NewBits, Fits, Render, Needs, AllNeeds, BitsAfter;
    AllNeedsConcat(p, q);
    FitsSplit(args, AllNeeds(p), AllNeeds(q));
    if p == [] {
      assert p + q == q && args[0..] == args;
      RenderEmpty(args, nbBits);
    } else {
      assert (p + q)[0] == p[0] && (p + q)[1..] == p[1..] + q;
      RenderCons(p + q, args, nbBits);
      RenderCons(p, args, nbBits);
      BitsAfterCons(p, args, nbBits);
      var rest, bits, text := args[|Needs(p[0])|..], NewBits(p[0], args, nbBits), PieceText(p[0], args, nbBits);
      RenderConcat(p[1..], q, rest, bits);
      var behind := rest[|AllNeeds(p[1..])|..];
      assert behind == args[|AllNeeds(p)|..];
      var first, second := Render(p[1..], rest, bits), Render(q, behind, BitsAfter(p[1..], rest, bits));
      assert text + (first + second) == (text + first) + second;
    }
  }

  lemma BitsAfterCons(p: seq<Piece>, args: seq<Arg>, nbBits: int)
    requires p != [] && Fits(args, AllNeeds(p))
    ensures Fits(args, Needs(p[0])) && Fits(args[|Needs(p[0])|..], AllNeeds(p[1..]))
    ensures BitsAfter(p, args, nbBits) == BitsAfter(p[1..], args[|Needs(p[0])|..], NewBits(p[0], args, nbBits))
  {
    FitsSplit(args, Needs(p[0]), AllNeeds(p[1..]));
  }

  lemma RenderEmpty(args: seq<Arg>, nbBits: int)
    ensures AllNeeds([]) == [] && Fits(args, AllNeeds([]))
    ensures Render([], args, nbBits) == [] && BitsAfter([], args, nbBits) == nbBits
  {
  }

  /** Printing a format cut between directives: the second part goes on where the first one stopped. */
  lemma FormatConcat(a: seq<Char>, b: seq<Char>, args: seq<Arg>, nbBits: int)
    requires !Continues(a, b) && Fits(args, AllNeeds(Parse(a + b)))
    ensures Fits(args, AllNeeds(Parse(a))) && Fits(args[|AllNeeds(Parse(a))|..], AllNeeds(Parse(b)))
    ensures Render(Parse(a + b), args, nbBits)
         == Render(Parse(a), args, nbBits)
          + Render(Parse(b), args[|AllNeeds(Parse(a))|..], BitsAfter(Parse(a), args, nbBits))
  {
    ParseConcat(a, b);
    RenderConcat(Parse(a), Parse(b), args, nbBits);
  }

  /** Without a percent sign a format takes no argument and prints as it stands. */
  lemma {:induction false} PlainFormat(f: seq<Char>, args: seq<Arg>, nbBits: int)
    requires '%' !in f
    ensures AllNeeds(Parse(f)) == [] && Fits(args, AllNeeds(Parse(f))) && Render(Parse(f), args, nbBits) == f
    decreases |f|
  {
    if f != [] {
      assert Head(f) == Literal(f[0]) && HeadLength(f) == 1;
      PlainFormat(f[1..], args, nbBits);
      RenderHead(f, args, nbBits);
      assert f == [f[0]] + f[1..];
    }
  }

  /** A percent sign starts a directive exactly in front of one of five letters; otherwise it stands for itself. */
  lemma UnknownConversion(c: Char, rest: seq<Char>)
    ensures Parse(['%', c] + rest) == [Literal('%')] + Parse([c] + rest)
       <==> c != 'd' && c != 'c' && c != 's' && c != 'x' && c != 'b'
  {
    var f := ['%', c] + rest;
    assert f[1..] == [c] + rest;
  }

  /** A doubled percent sign is no escape: the second one still starts a directive. */
  lemma PercentIsNotEscaped(rest: seq<Char>)
    ensures Parse("%%" + rest) == [Literal('%')] + Parse("%" + rest)
    ensures Parse("%%d") == [Literal('%'), Decimal]
  {
    UnknownConversion('%', rest);
    var g: seq<Char> := "%%d";
    assert g[1..] == "%d" && g[1..][2..] == [];
  }

  /** `%p` is printed as it stands, whatever follows it. */
  lemma PointerIsLiteral(rest: seq<Char>)
    ensures Parse("%p" + rest) == [Literal('%')] + Parse("p" + rest)
  {
    UnknownConversion('p', rest);
  }

  // ---------------------------------------------------------------- the directives, one by one

  /** A format of a single piece. */
  lemma OnePiece(f: seq<Char>, piece: Piece, args: seq<Arg>)
    requires NUL !in f && f != [] && Head(f) == piece && HeadLength(f) == |f| && Fits(args, Needs(piece))
    ensures IsCString(f + [NUL]) && Fits(args, AllNeeds(Parse(Text(f + [NUL]))))
    ensures Format(f + [NUL], args) == PieceText(piece, args, 8)
  {
    hide Head, HeadLength, Needs, Fits, PieceText, NewBits, Parse, AllNeeds, Render, Text;
    TextUpTo(f, []);
    assert f + [NUL] + [] == f + [NUL];
    ParseCons(f);
    EmptyContinues([]);
    var pieces := [piece];
    assert f[|f|..] == [] && pieces + [] == pieces && pieces[1..] == [] && Parse(f) == pieces;
    NeedsCons(piece, []);
    RenderEmpty(args, 8);
    assert Needs(piece) + [] == Needs(piece);
    RenderCons(pieces, args, 8);
    RenderEmpty(args[|Needs(piece)|..], NewBits(piece, args, 8));
    assert PieceText(piece, args, 8) + [] == PieceText(piece, args, 8);
  }

  lemma NeedsCons(piece: Piece, rest: seq<Piece>)
    ensures AllNeeds([piece] + rest) == Needs(piece) + AllNeeds(rest)
  {
    assert ([piece] + rest)[1..] == rest;
  }

  lemma {:induction false} TextUpTo(f: seq<Char>, behind: seq<Char>)
    requires NUL !in f
    ensures IsCString(f + [NUL] + behind) && Text(f + [NUL] + behind) == f
    decreases |f|
  {
    var memory := f + [NUL] + behind;
    assert memory[|f|] == NUL;
    if f != [] {
      assert f[0] in f && forall c <- f[1..] :: c in f;
      assert memory[1..] == f[1..] + [NUL] + behind;
      TextUpTo(f[1..], behind);
    }
  }

  /** `%c` prints the low byte of its argument, whatever the other three hold. */
  lemma CharacterDirective(c: Char, k: int)
    requires INT_MIN <= c as int + 0x100 * k < 0x8000_0000
    ensures var format: seq<Char>, args := ['%', 'c', '\0'], [IntArg(c as int + 0x100 * k)];
            IsCString(format) && Fits(args, AllNeeds(Parse(Text(format)))) && Format(format, args) == [c]
  {
    var args := [IntArg(c as int + 0x100 * k)];
    OnePiece(['%', 'c'], Character, args);
    assert (c as int + 0x100 * k) % 0x100 == c as int;
    assert ['%', 'c'] + [NUL] == ['%', 'c', '\0'];
  }

  /** `%d` prints the one canonical decimal numeral of its argument. */
  lemma DecimalDirective(x: i32, s: seq<Char>)
    requires x > -0x8000_0000
    ensures var format: seq<Char>, args := ['%', 'd', '\0'], [IntArg(x)];
            && IsCString(format) && Fits(args, AllNeeds(Parse(Text(format))))
            && (Format(format, args) == s <==> IsCanonicalInt(s, 10) && IntValue(s, 10) == x)
  {
    OnePiece(['%', 'd'], Decimal, [IntArg(x)]);
    assert ['%', 'd'] + [NUL] == ['%', 'd', '\0'];
    IntTextRoundTrip(x, 10, s);
  }

  /** `%x` prints 0x and the one canonical hexadecimal numeral of its argument, a minus sign between them if need be. */
  lemma HexDirective(x: i32, s: seq<Char>)
    requires x > -0x8000_0000
    ensures var format: seq<Char>, args := ['%', 'x', '\0'], [IntArg(x)];
            && IsCString(format) && Fits(args, AllNeeds(Parse(Text(format))))
            && (Format(format, args) == ['0', 'x'] + s <==> IsCanonicalInt(s, 16) && IntValue(s, 16) == x)
  {
    OnePiece(['%', 'x'], Hex, [IntArg(x)]);
    assert ['%', 'x'] + [NUL] == ['%', 'x', '\0'];
    IntTextRoundTrip(x, 16, s);
    assert (['0', 'x'] + s)[2..] == s && ("0x" + IntText(x, 16))[2..] == IntText(x, 16);
  }

  /** `%s` prints a string up to its NUL. */
  lemma StringDirective(text: seq<Char>, behind: seq<Char>)
    requires '\0' !in text
    ensures var format: seq<Char>, args := ['%', 's', '\0'], [StrArg(text + ['\0'] + behind)];
            IsCString(format) && Fits(args, AllNeeds(Parse(Text(format)))) && Format(format, args) == text
  {
    TextUpTo(text, behind);
    OnePiece(['%', 's'], String, [StrArg(text + ['\0'] + behind)]);
    assert ['%', 's'] + [NUL] == ['%', 's', '\0'];
  }

  /** `%b` prints the eight low bits of its argument and a b. */
  lemma BitsDirective(value: i32)
    ensures var format: seq<Char>, args := ['%', 'b', '\0'], [IntArg(value)];
            && IsCString(format) && Fits(args, AllNeeds(Parse(Text(format))))
            && var s := Format(format, args);
               |s| == 9 && s[8] == 'b' && '.' !in s && DigitsValue(s[..8], 2) == value % 256
  {
    OnePiece(['%', 'b'], Bits(false), [IntArg(value)]);
    assert ['%', 'b'] + [NUL] == ['%', 'b', '\0'];
    BinTextRoundTrip(value, 8);
    BinPrefixShape(value, 8, 8);
    var s := BinText(value, 8);
    assert s[..8] == BinPrefix(value, 8, 8);
    NoDots(s[..8]);
    assert Pow2(8) == 256;
  }

  /** `%b*` prints as many bits as its second argument says, 32 at most. */
  lemma StarDirective(value: i32, bits: i32)
    requires bits > 0
    ensures var format: seq<Char>, args := ['%', 'b', '*', '\0'], [IntArg(value), IntArg(bits)];
            && IsCString(format) && Fits(args, AllNeeds(Parse(Text(format))))
            && var s := Format(format, args);
               && s != [] && s[|s| - 1] == 'b'
               && DigitsValue(WithoutDots(s[..|s| - 1]), 2) == value % Pow2(if bits < 32 then bits else 32)
  {
    hide DigitsValue, WithoutDots, BinPrefix, Parse, Render, Text, AllNeeds, Pow2;
    OnePiece(['%', 'b', '*'], Bits(true), [IntArg(value), IntArg(bits)]);
    assert ['%', 'b', '*'] + [NUL] == ['%', 'b', '*', '\0'];
    BinTextRoundTrip(value, bits);
  }

  /** The number of bits that `%b*` sets holds for a `%b` behind it. */
  lemma StickyBits(value: i32, bits: i32, other: i32)
    requires bits > 0
    ensures var format: seq<Char> := ['%', 'b', '*', '%', 'b', '\0'];
            var args := [IntArg(value), IntArg(bits), IntArg(other)];
            && IsCString(format) && Fits(args, AllNeeds(Parse(Text(format))))
            && Format(format, args) == BinText(value, bits) + BinText(other, bits)
            && var s := BinText(other, bits);
               && s != [] && s[|s| - 1] == 'b'
               && DigitsValue(WithoutDots(s[..|s| - 1]), 2) == other % Pow2(if bits < 32 then bits else 32)
  {
    hide DigitsValue, WithoutDots, BinPrefix, Pow2;
    var f: seq<Char>, g: seq<Char> := ['%', 'b', '*', '%', 'b'], ['%', 'b'];
    var args := [IntArg(value), IntArg(bits), IntArg(other)];
    BinTextRoundTrip(other, bits);
    TwoPieces(f, g, args);
    assert f[3..] == g && f + [NUL] == ['%', 'b', '*', '%', 'b', '\0'];
  }

  lemma TwoPieces(f: seq<Char>, g: seq<Char>, args: seq<Arg>)
    requires NUL !in f && f == ['%', 'b', '*'] + g && g == ['%', 'b']
    requires |args| == 3 && args[0].IntArg? && args[1].IntArg? && args[2].IntArg?
    ensures IsCString(f + [NUL]) && Fits(args, AllNeeds(Parse(Text(f + [NUL]))))
    ensures Format(f + [NUL], args) == BinText(args[0].value, args[1].value) + BinText(args[2].value, args[1].value)
  {
    hide Text, Render, Parse, AllNeeds, BinText;
    TextUpTo(f, []);
    assert f + [NUL] + [] == f + [NUL];
    ParseCons(f);
    assert f[3..] == g;
    ParseCons(g);
    EmptyContinues([]);
    assert g[2..] == [];
    var star, bits := Bits(true), Bits(false);
    var pieces, tail := [star, bits], [bits];
    assert Parse(g) == tail && Parse(f) == [star] + tail == pieces;
    assert tail[1..] == [] && pieces[1..] == tail && tail == [bits] + [];
    NeedsCons(star, tail);
    NeedsCons(bits, []);
    RenderEmpty(args, 8);
    RenderCons(pieces, args, 8);
    var rest := args[2..];
    RenderCons(tail, rest, args[1].value);
    RenderEmpty(rest[1..], args[1].value);
    assert BinText(args[2].value, args[1].value) + [] == BinText(args[2].value, args[1].value);
  }

  lemma {:induction false} NoDots(s: seq<Char>)
    requires '.' !in s
    ensures WithoutDots(s) == s
    decreases |s|
  {
    if s != [] {
      NoDots(s[..|s| - 1]);
    }
  }

  /** A `%c` on the console itself: that character and nothing else goes out, wherever output goes. */
  method PrintCharacter(console: Console, c: Char, k: int)
    requires console.Valid() && INT_MIN <= c as int + 0x100 * k < 0x8000_0000
    modifies console`serial, console`text, console`logMark, console`serialMark
    modifies console.terminal`line, console.terminal`column, console.terminal`log, console.terminal.video
    ensures console.Valid()
    ensures console.serial == old(console.serial) + if console.toSerial then [c] else []
    ensures console.terminal.log.Cursor()
         == if !console.toScreen then old(console.terminal.log.Cursor())
            else if c as int == 10 then Cell(old(console.terminal.log.row) + 1, 0)
            else if c as int == 13 then Cell(old(console.terminal.log.row), 0)
            else if old(console.terminal.log.col) + 1 < 80
            then Cell(old(console.terminal.log.row), old(console.terminal.log.col) + 1)
            else Cell(old(console.terminal.log.row) + 1, 0)
    ensures console.toScreen && c as int != 10 && c as int != 13 ==>
              var was := old(console.terminal.log);
              console.terminal.log.cells == was.cells[was.Cursor() := Glyph(c as int, console.terminal.color)]
  {
    CharacterDirective(c, k);
    var log := console.terminal.log;
    OneCharacter(log, c, console.terminal.color);
    hide PrintAll, Format, Parse, Text, Fits;
    var _ := console.KPrintEx(['%', 'c', NUL], [IntArg(c as int + 0x100 * k)]);
  }

  lemma OneCharacter(log: Log, c: Char, color: u8)
    ensures PrintAll(log, [c], color) == log.Printed(c, color)
  {
    assert [c][1..] == [];
  }
}
