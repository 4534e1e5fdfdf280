/** `kprint`: a format-string interpreter that walks two pointers, and the text it prints. */
module Stdio {
  import opened KernelTypes
  import opened Arithmetic
  import opened Numerals
  import opened Screen
  import opened ScreenTheorems
  import opened Stdlib

  const INT_MIN: i32 := -0x8000_0000

  // ---------------------------------------------------------------- formats

  datatype Piece = Literal(c: Char) | Decimal | Hex | Character | String | Bits(star: bool)

  predicate CheckType(c: Char) {
    c == 'd' || c == 'c' || c == 's' || c == 'x' || c == 'b'
  }

  /** What the interpreter recognises at the head of a format, and how many characters that takes. */
  function Head(f: seq<Char>): Piece
    requires f != []
  {
    if f[0] == '%' && |f| > 1 && CheckType(f[1]) then
      if f[1] == 'd' then Decimal
      else if f[1] == 'x' then Hex
      else if f[1] == 's' then String
      else if f[1] == 'c' then Character
      else Bits(|f| > 2 && f[2] == '*')
    else Literal(f[0])
  }

  function HeadLength(f: seq<Char>): (k: nat)
    requires f != []
    ensures 0 < k <= |f|
  {
    match Head(f)
    case Literal(_) => 1
    case Bits(star) => if star then 3 else 2
    case _ => 2
  }

  /** The static scan of a format. */
  function Parse(f: seq<Char>): seq<Piece>
    decreases |f|
  {
    if f == [] then [] else [Head(f)] + Parse(f[HeadLength(f)..])
  }

  /** What a `va_list` holds: an `int`, or a pointer to the memory of a string. */
  datatype Arg = IntArg(value: i32) | StrArg(memory: seq<Char>)

  datatype Need = Signed | AnyInt | Str

  function Needs(p: Piece): seq<Need> {
    match p
    case Literal(_) => []
    case Decimal | Hex => [Signed]
    case Character => [AnyInt]
    case String => [Str]
    case Bits(star) => if star then [AnyInt, AnyInt] else [AnyInt]
  }

  /** The arguments that a static scan of the format predicts. */
  function AllNeeds(pieces: seq<Piece>): seq<Need> {
    if pieces == [] then [] else Needs(pieces[0]) + AllNeeds(pieces[1..])
  }

  /** `printInt` negates its argument, so the least `int` is not printable. */
  predicate Meets(arg: Arg, need: Need) {
    match need
    case Signed => arg.IntArg? && arg.value > INT_MIN
    case AnyInt => arg.IntArg?
    case Str => arg.StrArg? && IsCString(arg.memory)
  }

  predicate Fits(args: seq<Arg>, needs: seq<Need>) {
    |needs| <= |args| && forall i :: 0 <= i < |needs| ==> Meets(args[i], needs[i])
  }

  function PieceText(p: Piece, args: seq<Arg>, nbBits: int): seq<Char>
    requires Fits(args, Needs(p))
  {
    match p
    case Literal(c) => [c]
    case Decimal => IntText(args[0].value, 10)
    case Hex => "0x" + IntText(args[0].value, 16)
    case Character => [LowChar(args[0].value)]
    case String => Text(args[0].memory)
    case Bits(_) => BinText(args[0].value, NewBits(p, args, nbBits))
  }

  /** An `int` narrowed to a `char`. */
  function LowChar(value: int): Char {
    (value % 0x100) as char
  }

  /** The number of bits is sticky: `%b*` sets it for every `%b` behind it. */
  function NewBits(p: Piece, args: seq<Arg>, nbBits: int): int
    requires Fits(args, Needs(p))
  {
    if p == Bits(true) then args[1].value else nbBits
  }

  function Render(pieces: seq<Piece>, args: seq<Arg>, nbBits: int): seq<Char>
    requires Fits(args, AllNeeds(pieces))
  {
    if pieces == [] then []
    else
      FitsSplit(args, Needs(pieces[0]), AllNeeds(pieces[1..]));
      PieceText(pieces[0], args, nbBits)
      + Render(pieces[1..], args[|Needs(pieces[0])|..], NewBits(pieces[0], args, nbBits))
  }

  lemma FitsSplit(args: seq<Arg>, a: seq<Need>, b: seq<Need>)
    requires Fits(args, a + b)
    ensures Fits(args, a) && Fits(args[|a|..], b)
  {
    forall i | 0 <= i < |a| ensures Meets(args[i], a[i]) { assert (a + b)[i] == a[i]; }
    forall i | 0 <= i < |b| ensures Meets(args[|a|..][i], b[i]) { assert (a + b)[|a| + i] == b[i]; }
  }

  /** The text that `kprintEx` prints. */
  function Format(format: seq<Char>, args: seq<Arg>): seq<Char>
    requires IsCString(format) && Fits(args, AllNeeds(Parse(Text(format))))
  {
    Render(Parse(Text(format)), args, 8)
  }

  // ---------------------------------------------------------------- printing

  class Console {
    const terminal: Terminal
    /** The log type's two flags. */
    var toScreen: bool
    var toSerial: bool
    /** What went out on COM1. */
    var serial: seq<Char>

    /** Since `Mark`: the text printed, and where screen and port stood before. */
    ghost var text: seq<Char>
    ghost var logMark: Log
    ghost var serialMark: seq<Char>

    constructor (terminal: Terminal, toScreen: bool, toSerial: bool)
      requires terminal.Valid()
      ensures Valid() && this.terminal == terminal && this.toScreen == toScreen && this.toSerial == toSerial
      ensures serial == []
    {
      this.terminal, this.toScreen, this.toSerial, serial := terminal, toScreen, toSerial, [];
      text, logMark, serialMark := [], terminal.log, [];
    }

    ghost predicate Valid()
      reads this, terminal, terminal.video
    {
      && terminal.Valid()
      && terminal.log == (if toScreen then PrintAll(logMark, text, terminal.color) else logMark)
      && serial == (if toSerial then serialMark + text else serialMark)
    }

    ghost method Mark()
      requires terminal.Valid()
      modifies this`text, this`logMark, this`serialMark
      ensures Valid() && text == [] && logMark == terminal.log && serialMark == serial
    {
      text, logMark, serialMark := [], terminal.log, serial;
    }

    method PrintChar(c: Char)
      requires Valid()
      modifies this`serial, this`text, terminal`line, terminal`column, terminal`log, terminal.video
      ensures Valid() && text == old(text) + [c]
    {
      if toScreen {
        PrintAllConcat(logMark, text, [c], terminal.color);
        terminal.ScPrintChar(c);
      }
      if toSerial {
        serial := serial + [c];
      }
      text := text + [c];
    }

    method PrintStr(str: seq<Char>)
      requires Valid() && IsCString(str)
      modifies this`serial, this`text, terminal`line, terminal`column, terminal`log, terminal.video
      ensures Valid() && text == old(text) + Text(str)
    {
      ghost var was := text;
      var i := 0;
      while str[i] != NUL
        invariant 0 <= i <= |Text(str)| && Valid()
        invariant text == was + Text(str)[..i]
        decreases |str| - i
      {
        assert Text(str)[i] == str[i];
        PrintChar(str[i]);
        i := i + 1;
      }
      assert Text(str)[..i] == Text(str);
    }

    /** Digits go into a buffer of 34 characters, lowest first, and come out backwards. */
    method PrintInt(x: i32, base: u16)
      requires Valid() && x > INT_MIN
      modifies this`serial, this`text, terminal`line, terminal`column, terminal`log, terminal.video
      ensures Valid() && text == old(text) + IntText(x, base)
    {
      hide Valid, Terminal.Valid, Digits;
      if x == 0 {
        PrintChar('0');
      }
      if base < 2 || 16 < base {
        return;
      }
      var chaine := new Char[34];
      NoDigits(base);
      var cpt := FillDigits(chaine, if x < 0 then -x else x, base);
      if x < 0 {
        ghost var digits := chaine[..cpt];
        chaine[cpt] := '-';
        cpt := cpt + 1;
        assert chaine[..cpt] == digits + ['-'];
        ReversedSnoc(digits, '-');
      }
      PrintBackwards(chaine, cpt);
    }

    static method FillDigits(chaine: array<Char>, n: i32, base: u16) returns (cpt: nat)
      requires chaine.Length == 34 && n >= 0 && 2 <= base <= 16
      modifies chaine
      ensures cpt <= 31 && Reversed(chaine[..cpt]) == Digits(n, base)
    {
      var quotient := n;
      cpt := 0;
      PowersUpTo31();
      while quotient != 0
        invariant 0 <= cpt <= 31 && 0 <= quotient < Pow2(31 - cpt)
        invariant Digits(n, base) == Digits(quotient, base) + Reversed(chaine[..cpt])
      {
        DivLess(quotient, base);
        var reste := quotient % base;
        ghost var before := chaine[..cpt];
        chaine[cpt] := HEX[reste];
        assert chaine[..cpt + 1] == before + [HEX[reste]];
        ReversedSnoc(before, HEX[reste]);
        assert Digits(quotient, base) == Digits(quotient / base, base) + [HEX[reste]];
        quotient := quotient / base;
        cpt := cpt + 1;
      }
    }

    method PrintBackwards(chaine: array<Char>, cpt: nat)
      requires Valid() && cpt <= chaine.Length
      modifies this`serial, this`text, terminal`line, terminal`column, terminal`log, terminal.video
      ensures Valid() && text == old(text) + Reversed(chaine[..cpt])
    {
      ghost var was, all := text, Reversed(chaine[..cpt]);
      var i := cpt - 1;
      while i >= 0
        invariant -1 <= i < cpt && Valid()
        invariant text == was + all[..cpt - 1 - i]
      {
        assert chaine[i] == all[cpt - 1 - i];
        PrintChar(chaine[i]);
        i := i - 1;
      }
      assert all[..cpt] == all;
    }

    method PrintBin(value: i32, nbBits: int)
      requires Valid()
      modifies this`serial, this`text, terminal`line, terminal`column, terminal`log, terminal.video
      ensures Valid() && text == old(text) + BinText(value, nbBits)
    {
      var n := if nbBits > 32 then 32 else nbBits;
      hide Valid, Terminal.Valid, BinPrefix, BitChar;
      BinPrefixNone(value, if nbBits < 0 then 0 else Min(nbBits, 32));
      ghost var was := text;
      var i := 0;
      var offset := n - 1;
      while offset >= 0
        invariant Valid() && 0 <= i && offset == n - 1 - i
        invariant n > 0 ==> i <= n && text == was + BinPrefix(value, n, i)
        invariant n <= 0 ==> text == was && i == 0
      {
        BinPrefixStep(value, n, i);
        if n > 8 && i % 8 == 0 && i != 0 {
          PrintChar('.');
        }
        i := i + 1;
        if value / Pow2(offset) % 2 == 1 {
          PrintChar('1');
        } else {
          PrintChar('0');
        }
        offset := offset - 1;
      }
      PrintChar('b');
    }

    method PrintHex(value: i32)
      requires Valid() && value > INT_MIN
      modifies this`serial, this`text, terminal`line, terminal`column, terminal`log, terminal.video
      ensures Valid() && text == old(text) + ("0x" + IntText(value, 16))
    {
      hide Valid, Terminal.Valid, IntText, Text;
      PrintStr(['0', 'x', NUL]);
      assert text == old(text) + "0x";
      PrintInt(value, 16);
    }

    /** Walks the format and the argument list; answers how many arguments it took. */
    method KPrintEx(format: seq<Char>, args: seq<Arg>) returns (taken: nat)
      requires Valid() && IsCString(format) && Fits(args, AllNeeds(Parse(Text(format))))
      modifies this`serial, this`text, this`logMark, this`serialMark
      modifies terminal`line, terminal`column, terminal`log, terminal.video
      ensures Valid() && taken == |AllNeeds(Parse(Text(format)))|
      ensures terminal.log == if toScreen then PrintAll(old(terminal.log), Format(format, args), terminal.color)
                              else old(terminal.log)
      ensures serial == if toSerial then old(serial) + Format(format, args) else old(serial)
    {
      hide Terminal.Valid, PrintAll, Text, Pending, Head, HeadLength, PieceText, NewBits, Needs, Fits;
      Mark();
      ghost var f, out := Text(format), Format(format, args);
      var nbBits := 8;
      var at := 0;
      taken := 0;
      PendingStart(f, args, nbBits);
      while format[at] != NUL
        invariant 0 <= at <= |f| && taken <= |args| && Valid()
        invariant logMark == old(terminal.log) && serialMark == old(serial)
        invariant Pending(f, args, out, at, taken, nbBits, text)
        decreases |f| - at
      {
        PendingHead(f, args, out, at, taken, nbBits, text);
        HeadInMemory(format, at);
        var c := format[at];
        if c == '%' {
          if !CheckType(format[at + 1]) {
            LiteralText(c, args[taken..], nbBits);
            PrintChar(c);
          } else {
            at, taken, nbBits := PrintArg(format, at, args, taken, nbBits);
          }
        } else {
          LiteralText(c, args[taken..], nbBits);
          PrintChar(format[at]);
        }
        at := at + 1;
      }
      EndInMemory(format, at);
      PendingEnd(f, args, out, at, taken, nbBits, text);
    }

    /** The `switch` on the conversion character behind a '%'. */
    method PrintArg(format: seq<Char>, at: nat, args: seq<Arg>, taken: nat, nbBits: int)
      returns (at': nat, taken': nat, nbBits': int)
      requires Valid() && IsCString(format) && at < |Text(format)| && taken <= |args|
      requires format[at] == '%' && CheckType(format[at + 1])
      requires Fits(args[taken..], Needs(Head(Text(format)[at..])))
      modifies this`serial, this`text, terminal`line, terminal`column, terminal`log, terminal.video
      ensures Valid()
      ensures var f := Text(format)[at..];
              && text == old(text) + PieceText(Head(f), args[taken..], nbBits)
              && nbBits' == NewBits(Head(f), args[taken..], nbBits)
              && taken' == taken + |Needs(Head(f))| && at' + 1 == at + HeadLength(f)
    {
      DirectiveInMemory(format, at);
      DirectiveArgs(args, taken, Head(Text(format)[at..]), nbBits);
      hide Valid, Terminal.Valid, IntText, BinText, Head, HeadLength, Text, PieceText, NewBits, Needs, Fits, Meets;
      ghost var was, goal := text, PieceText(Head(Text(format)[at..]), args[taken..], nbBits);
      at', taken', nbBits' := at, taken, nbBits;
      var kind := format[at + 1];
      if kind == 'd' {
        PrintInt(args[taken].value, 10);
        taken' := taken' + 1;
      } else if kind == 'x' {
        PrintHex(args[taken].value);
        taken' := taken' + 1;
      } else if kind == 'b' {
        var value := args[taken].value;
        taken' := taken' + 1;
        if format[at + 2] == '*' {
          nbBits' := args[taken'].value;
          taken' := taken' + 1;
          at' := at' + 1;
        }
        PrintBin(value, nbBits');
      } else if kind == 's' {
        PrintStr(args[taken].memory);
        taken' := taken' + 1;
      } else {
        PrintChar(LowChar(args[taken].value));
        taken' := taken' + 1;
      }
      assert text == was + goal;
      at' := at' + 1;
    }
  }

  /** A piece that is not a directive is the one character in front of the pointer. */
  lemma HeadInMemory(format: seq<Char>, at: nat)
    requires IsCString(format) && at < |Text(format)|
    ensures var f := Text(format)[at..];
            && at + 1 < |format| && format[at] == f[0]
            && (format[at] == '%' && CheckType(format[at + 1]) ==> HeadLength(f) >= 2)
            && (!(format[at] == '%' && CheckType(format[at + 1])) ==>
                  Head(f) == Literal(format[at]) && HeadLength(f) == 1)
  {
    var text := Text(format);
    assert format[at] == text[at];
    if at + 1 < |text| { assert format[at + 1] == text[at + 1]; }
  }

  /** A directive is told by the character behind the percent sign, and a star behind a `%b`. */
  lemma DirectiveInMemory(format: seq<Char>, at: nat)
    requires IsCString(format) && at < |Text(format)| && at + 1 < |format|
    requires format[at] == '%' && CheckType(format[at + 1])
    ensures var f, kind := Text(format)[at..], format[at + 1];
            && at + 2 < |format|
            && (kind == 'd' ==> Head(f) == Decimal)
            && (kind == 'x' ==> Head(f) == Hex)
            && (kind == 's' ==> Head(f) == String)
            && (kind == 'c' ==> Head(f) == Character)
            && (kind == 'b' ==> Head(f) == Bits(format[at + 2] == '*'))
            && HeadLength(f) == if kind == 'b' && format[at + 2] == '*' then 3 else 2
  {
    var text := Text(format);
    assert format[at] == text[at];
    assert at + 1 < |text| && format[at + 1] == text[at + 1];
    if at + 2 < |text| { assert format[at + 2] == text[at + 2]; }
  }

  /** What the arguments at the pointer are, and what a directive makes of them. */
  lemma DirectiveArgs(args: seq<Arg>, taken: nat, p: Piece, nbBits: int)
    requires taken <= |args| && !p.Literal? && Fits(args[taken..], Needs(p))
    ensures taken < |args| && |Needs(p)| == if p == Bits(true) then 2 else 1
    ensures var arg, text := args[taken], PieceText(p, args[taken..], nbBits);
            && (p == Decimal ==> arg.IntArg? && arg.value > INT_MIN && text == IntText(arg.value, 10))
            && (p == Hex ==> arg.IntArg? && arg.value > INT_MIN && text == "0x" + IntText(arg.value, 16))
            && (p == Character ==> arg.IntArg? && text == [LowChar(arg.value)])
            && (p == String ==> arg.StrArg? && IsCString(arg.memory) && text == Text(arg.memory))
            && (p == Bits(false) ==> arg.IntArg? && text == BinText(arg.value, nbBits))
            && (p == Bits(true) ==> arg.IntArg? && taken + 1 < |args| && args[taken + 1].IntArg?
                                    && text == BinText(arg.value, args[taken + 1].value))
    ensures NewBits(p, args[taken..], nbBits) == if p == Bits(true) then args[taken + 1].value else nbBits
  {
    var rest := args[taken..];
    assert Meets(rest[0], Needs(p)[0]) && rest[0] == args[taken];
    if p == Bits(true) {
      assert Meets(rest[1], Needs(p)[1]) && rest[1] == args[taken + 1];
    }
  }

  lemma EndInMemory(format: seq<Char>, at: nat)
    requires IsCString(format) && at <= |Text(format)| && format[at] == NUL
    ensures Text(format)[at..] == []
  {
    var text := Text(format);
    assert forall i :: 0 <= i < |text| ==> text[i] == format[i] && text[i] in text;
  }

  /** What is left to do: `text` has been printed, `taken` arguments used, the format walked up to `at`. */
  ghost predicate Pending(f: seq<Char>, args: seq<Arg>, out: seq<Char>, at: nat, taken: nat, nbBits: int,
                          text: seq<Char>)
  {
    && at <= |f| && taken <= |args|
    && Fits(args[taken..], AllNeeds(Parse(f[at..])))
    && taken + |AllNeeds(Parse(f[at..]))| == |AllNeeds(Parse(f))|
    && out == text + Render(Parse(f[at..]), args[taken..], nbBits)
  }

  lemma PendingStart(f: seq<Char>, args: seq<Arg>, nbBits: int)
    requires Fits(args, AllNeeds(Parse(f)))
    ensures Pending(f, args, Render(Parse(f), args, nbBits), 0, 0, nbBits, [])
  {
    assert f[0..] == f && args[0..] == args;
  }

  /** The piece at the pointer can be printed, and printing it leaves the rest pending. */
  lemma PendingHead(f: seq<Char>, args: seq<Arg>, out: seq<Char>, at: nat, taken: nat, nbBits: int, text: seq<Char>)
    requires at < |f| && Pending(f, args, out, at, taken, nbBits, text)
    ensures var p, rest := Head(f[at..]), args[taken..];
            && Fits(rest, Needs(p)) && taken + |Needs(p)| <= |args|
            && Pending(f, args, out, at + HeadLength(f[at..]), taken + |Needs(p)|, NewBits(p, rest, nbBits),
                       text + PieceText(p, rest, nbBits))
  {
    hide Head, HeadLength, PieceText, NewBits, Needs, Fits, Render, Parse, AllNeeds;
    var g, rest := f[at..], args[taken..];
    RenderHead(g, rest, nbBits);
    FitsLength(rest, Needs(Head(g)));
    assert g[HeadLength(g)..] == f[at + HeadLength(g)..];
    assert rest[|Needs(Head(g))|..] == args[taken + |Needs(Head(g))|..];
  }

  lemma FitsLength(args: seq<Arg>, needs: seq<Need>)
    requires Fits(args, needs)
    ensures |needs| <= |args|
  {
  }

  lemma LiteralText(c: Char, args: seq<Arg>, nbBits: int)
    ensures Needs(Literal(c)) == [] && Fits(args, [])
    ensures PieceText(Literal(c), args, nbBits) == [c] && NewBits(Literal(c), args, nbBits) == nbBits
  {
  }

  lemma PendingEnd(f: seq<Char>, args: seq<Arg>, out: seq<Char>, at: nat, taken: nat, nbBits: int, text: seq<Char>)
    requires Pending(f, args, out, at, taken, nbBits, text) && f[at..] == []
    ensures text == out && taken == |AllNeeds(Parse(f))|
  {
  }

  /** The text of a format is the text of its first piece and then that of the rest. */
  lemma RenderHead(f: seq<Char>, args: seq<Arg>, nbBits: int)
    requires f != [] && Fits(args, AllNeeds(Parse(f)))
    ensures var p, rest := Head(f), f[HeadLength(f)..];
            && Fits(args, Needs(p)) && Fits(args[|Needs(p)|..], AllNeeds(Parse(rest)))
            && |AllNeeds(Parse(f))| == |Needs(p)| + |AllNeeds(Parse(rest))|
            && Render(Parse(f), args, nbBits)
               == PieceText(p, args, nbBits) + Render(Parse(rest), args[|Needs(p)|..], NewBits(p, args, nbBits))
  {
    var pieces := Parse(f);
    assert pieces[0] == Head(f) && pieces[1..] == Parse(f[HeadLength(f)..]);
    RenderCons(pieces, args, nbBits);
  }

  lemma RenderCons(pieces: seq<Piece>, args: seq<Arg>, nbBits: int)
    requires pieces != [] && Fits(args, AllNeeds(pieces))
    ensures var p, rest := pieces[0], pieces[1..];
            && AllNeeds(pieces) == Needs(p) + AllNeeds(rest)
            && Fits(args, Needs(p)) && Fits(args[|Needs(p)|..], AllNeeds(rest))
            && Render(pieces, args, nbBits)
               == PieceText(p, args, nbBits) + Render(rest, args[|Needs(p)|..], NewBits(p, args, nbBits))
  {
    FitsSplit(args, Needs(pieces[0]), AllNeeds(pieces[1..]));
  }

  lemma BinPrefixNone(value: int, n: nat)
    ensures BinPrefix(value, n, 0) == []
  {
  }

  lemma BinPrefixStep(value: int, n: nat, i: nat)
    requires i < n
    ensures var dot := n > 8 && i % 8 == 0 && i != 0;
            var before := if dot then BinPrefix(value, n, i) + ['.'] else BinPrefix(value, n, i);
            BinPrefix(value, n, i + 1) == before + [if value / Pow2(n - 1 - i) % 2 == 1 then '1' else '0']
  {
  }

  lemma NoDigits(base: nat)
    requires 2 <= base <= 16
    ensures Digits(0, base) == []
  {
  }

  function Reversed(s: seq<Char>): (r: seq<Char>)
    ensures |r| == |s| && forall i :: 0 <= i < |s| ==> r[i] == s[|s| - 1 - i]
  {
    seq(|s|, i requires 0 <= i < |s| => s[|s| - 1 - i])
  }

  lemma ReversedSnoc(s: seq<Char>, c: Char)
    ensures Reversed(s + [c]) == [c] + Reversed(s)
  {
  }

  lemma PowersUpTo31()
    ensures Pow2(31) == 0x8000_0000 && Pow2(0) == 1
  {
    assert Pow2(10) == 0x400;
    assert Pow2(20) == 0x10_0000;
    assert Pow2(30) == 0x4000_0000;
  }
}
