/** vsnprintf (src/lib/str.c:187-257).  A format is the characters before its NUL. */
module Format {
  import opened Machine
  import opened Numerals

  /** An argument with its C type. */
  datatype Arg = IntArg(i: int) | LongArg(l: int) | UlongArg(u: u64) | StrArg(s: seq<char>) | CharArg(c: char)

  datatype Directive = Dec | Hex | HexUpper | Str | Chr | Ulong | Long | Unknown

  /** The directive a '%' introduces and the characters it takes, the '%' included.  An unknown one
      takes the character after the '%' and prints nothing. */
  function Parse(format: seq<char>): (r: (Directive, nat))
    requires |format| >= 2
    ensures 2 <= r.1 <= |format|
  {
    var c := format[1];
    if c == 'd' then (Dec, 2)
    else if c == 'x' then (Hex, 2)
    else if c == 'X' then (HexUpper, 2)
    else if c == 's' then (Str, 2)
    else if c == 'c' then (Chr, 2)
    else if c == 'l' && |format| > 2 && format[2] == 'u' then (Ulong, 3)
    else if c == 'l' && |format| > 2 && format[2] == 'd' then (Long, 3)
    else (Unknown, 2)
  }

  /** The argument has the type the directive reads; the least signed values are excluded because
      negating them is undefined in C. */
  predicate Fits(d: Directive, a: Arg) {
    match d
    case Dec => a.IntArg? && -0x8000_0000 < a.i < 0x8000_0000
    case Long => a.LongArg? && -0x8000_0000_0000_0000 < a.l < 0x8000_0000_0000_0000
    case Hex => a.UlongArg?
    case HexUpper => a.UlongArg?
    case Ulong => a.UlongArg?
    case Str => a.StrArg?
    case Chr => a.CharArg?
    case Unknown => false
  }

  function Text(d: Directive, a: Arg): seq<char>
    requires Fits(d, a)
  {
    match d
    case Dec => SignedText(a.i, 10)
    case Long => SignedText(a.l, 10)
    case Hex => UnsignedText(a.u, 16, false)
    case HexUpper => UnsignedText(a.u, 16, true)
    case Ulong => UnsignedText(a.u, 10, false)
    case Str => a.s
    case Chr => [a.c]
  }

  /** What C demands of the caller: an argument of the right type for every directive, and no '%' as
      the last character, for then the loop would step over the NUL. */
  predicate WellTyped(format: seq<char>, args: seq<Arg>) {
    if format == [] then true
    else if format[0] != '%' then WellTyped(format[1..], args)
    else
      && |format| >= 2
      && var (d, n) := Parse(format);
         if d == Unknown then WellTyped(format[n..], args)
         else args != [] && Fits(d, args[0]) && WellTyped(format[n..], args[1..])
  }

  /** What one turn of the loop adds: a character of the format, or the text of an argument. */
  datatype Piece = Literal(c: char) | Output(s: seq<char>)

  function Pieces(format: seq<char>, args: seq<Arg>): seq<Piece>
    requires WellTyped(format, args)
  {
    if format == [] then []
    else if format[0] != '%' then [Literal(format[0])] + Pieces(format[1..], args)
    else
      var (d, n) := Parse(format);
      if d == Unknown then Pieces(format[n..], args)
      else [Output(Text(d, args[0]))] + Pieces(format[n..], args[1..])
  }

  /** The full expansion, with no bound. */
  function Expand(pieces: seq<Piece>): seq<char> {
    if pieces == [] then []
    else (match pieces[0] case Literal(c) => [c] case Output(s) => s) + Expand(pieces[1..])
  }

  /** What the loop produces from index idx on: a literal character that would not leave room for the
      NUL ends it; directives are not held to the bound. */
  function Render(pieces: seq<Piece>, size: nat, idx: nat): seq<char> {
    if pieces == [] then []
    else
      match pieces[0]
      case Literal(c) => if idx < size - 1 then [c] + Render(pieces[1..], size, idx + 1) else []
      case Output(s) => s + Render(pieces[1..], size, idx + |s|)
  }

  // ---------- The bound ----------

  /** The output is always a prefix of the expansion. */
  lemma {:induction false} RenderIsPrefix(pieces: seq<Piece>, size: nat, idx: nat)
    ensures Render(pieces, size, idx) <= Expand(pieces)
  {
    if pieces != [] {
      RenderIsPrefix(pieces[1..], size, idx + match pieces[0] case Literal(_) => 1 case Output(s) => |s|);
    }
  }

  /** The index just past the last literal character of the expansion, 0 if there is none. */
  function LiteralsEnd(pieces: seq<Piece>, idx: nat): nat {
    if pieces == [] then 0
    else
      match pieces[0]
      case Literal(c) => (var later := LiteralsEnd(pieces[1..], idx + 1); if later == 0 then idx + 1 else later)
      case Output(s) => LiteralsEnd(pieces[1..], idx + |s|)
  }

  lemma {:induction false} LiteralsEndBounds(pieces: seq<Piece>, idx: nat)
    ensures LiteralsEnd(pieces, idx) == 0 || idx < LiteralsEnd(pieces, idx) <= idx + |Expand(pieces)|
  {
    if pieces != [] {
      LiteralsEndBounds(pieces[1..], idx + match pieces[0] case Literal(_) => 1 case Output(s) => |s|);
    }
  }

  /** Nothing is cut off exactly when every literal character lies before the last place of the buffer. */
  lemma {:induction false} CompleteIff(pieces: seq<Piece>, size: nat, idx: nat)
    ensures Render(pieces, size, idx) == Expand(pieces)
            <==> LiteralsEnd(pieces, idx) == 0 || LiteralsEnd(pieces, idx) <= size - 1
  {
    if pieces != [] {
      var t := match pieces[0] case Literal(c) => [c] case Output(s) => s;
      CompleteIff(pieces[1..], size, idx + |t|);
      LiteralsEndBounds(pieces[1..], idx + |t|);
      SameRest(t, Render(pieces[1..], size, idx + |t|), Expand(pieces[1..]));
    }
  }

  lemma SameRest(t: seq<char>, r: seq<char>, e: seq<char>)
    ensures t + r == t + e <==> r == e
  {
    assert (t + r)[|t|..] == r && (t + e)[|t|..] == e;
  }

  /** So an expansion shorter than the buffer comes out whole. */
  lemma ShortExpansionIsComplete(pieces: seq<Piece>, size: nat)
    requires |Expand(pieces)| < size
    ensures Render(pieces, size, 0) == Expand(pieces)
  {
    LiteralsEndBounds(pieces, 0);
    CompleteIff(pieces, size, 0);
  }

  /** A format without directives is its own expansion and is cut to size - 1 characters. */
  lemma {:induction false} LiteralFormat(format: seq<char>, args: seq<Arg>, size: nat, idx: nat)
    requires '%' !in format && idx < size
    ensures WellTyped(format, args) && Expand(Pieces(format, args)) == format
    ensures Render(Pieces(format, args), size, idx)
         == format[..if |format| <= size - 1 - idx then |format| else size - 1 - idx]
  {
    if format != [] {
      assert format[0] != '%';
      LiteralFormat(format[1..], args, size, if idx < size - 1 then idx + 1 else idx);
    }
  }

  /** Place k of the expansion holds a literal character of the format. */
  predicate LiteralAt(pieces: seq<Piece>, k: int) {
    && pieces != [] && k >= 0
    && match pieces[0]
       case Literal(_) => k == 0 || LiteralAt(pieces[1..], k - 1)
       case Output(s) => LiteralAt(pieces[1..], k - |s|)
  }

  /** Some place from lo on and below hi does. */
  predicate LiteralIn(pieces: seq<Piece>, lo: int, hi: int) {
    exists k :: lo <= k < hi && LiteralAt(pieces, k)
  }

  /** One piece further on. */
  lemma LiteralInRest(pieces: seq<Piece>, lo: int, hi: int)
    requires pieces != []
    ensures var n := if pieces[0].Literal? then 1 else |pieces[0].s|;
            LiteralIn(pieces, lo, hi)
            <==> (pieces[0].Literal? && lo <= 0 < hi) || LiteralIn(pieces[1..], lo - n, hi - n)
  {
    var n := if pieces[0].Literal? then 1 else |pieces[0].s|;
    if k :| lo <= k < hi && LiteralAt(pieces, k) {
      assert (pieces[0].Literal? && k == 0) || LiteralAt(pieces[1..], k - n);
      assert k != 0 || !pieces[0].Literal? ==> LiteralIn(pieces[1..], lo - n, hi - n);
    }
    if k :| lo - n <= k < hi - n && LiteralAt(pieces[1..], k) {
      assert LiteralAt(pieces, k + n) && LiteralIn(pieces, lo, hi);
    }
    if pieces[0].Literal? && lo <= 0 < hi {
      assert LiteralAt(pieces, 0) && LiteralIn(pieces, lo, hi);
    }
  }

  /** The exact condition for the output to end before limit, which may lie behind size: the expansion
      does, or a literal character stands between the last place that size leaves and limit.  Such a
      character is what stops the loop; nothing else does. */
  lemma {:induction false} EndsBeforeIff(pieces: seq<Piece>, size: nat, limit: nat, idx: nat)
    requires 0 < size <= limit
    ensures idx + |Render(pieces, size, idx)| < limit
            <==> idx + |Expand(pieces)| < limit || LiteralIn(pieces, size - 1 - idx, limit - idx)
  {
    if pieces != [] {
      LiteralInRest(pieces, size - 1 - idx, limit - idx);
      EndsBeforeIff(pieces[1..], size, limit, idx + match pieces[0] case Literal(_) => 1 case Output(s) => |s|);
    }
  }

  /** So vsnprintf keeps to size exactly when the expansion fits, or its place size - 1 holds a literal
      character.  An argument that crosses that place is printed to its end, past the buffer. */
  lemma {:induction false} KeepsToSizeIff(pieces: seq<Piece>, size: nat, idx: nat)
    requires idx < size
    ensures idx + |Render(pieces, size, idx)| < size
            <==> idx + |Expand(pieces)| < size || LiteralAt(pieces, size - 1 - idx)
  {
    EndsBeforeIff(pieces, size, size, idx);
    assert LiteralIn(pieces, size - 1 - idx, size - idx) <==> LiteralAt(pieces, size - 1 - idx);
  }

  /** The memory at the buffer, limit characters of it, holds the output and its NUL. */
  predicate HasRoom(pieces: seq<Piece>, size: nat, limit: nat) {
    |Expand(pieces)| < limit || LiteralIn(pieces, size - 1, limit)
  }

  lemma RoomForOutput(pieces: seq<Piece>, size: nat, limit: nat)
    requires 0 < size <= limit
    ensures HasRoom(pieces, size, limit) <==> |Render(pieces, size, 0)| < limit
  {
    EndsBeforeIff(pieces, size, limit, 0);
  }

  /** With no more memory than size, that is a test of one place. */
  lemma HasRoomForSize(pieces: seq<Piece>, size: nat)
    requires |Expand(pieces)| < size || (0 < size && LiteralAt(pieces, size - 1))
    ensures HasRoom(pieces, size, size)
  {
  }

  /** A string argument is printed whole, whatever the size: it stays in the buffer only if it is shorter. */
  lemma StringsIgnoreSize(s: seq<char>, size: nat)
    requires 0 < size
    ensures WellTyped("%s", [StrArg(s)]) && Render(Pieces("%s", [StrArg(s)]), size, 0) == s
    ensures HasRoom(Pieces("%s", [StrArg(s)]), size, size) <==> |s| < size
  {
    KeepsToSizeIff(Pieces("%s", [StrArg(s)]), size, 0);
    RoomForOutput(Pieces("%s", [StrArg(s)]), size, size);
  }

  // ---------- What a format means ----------

  /** s is v in decimal: a sign if it is negative, then its digits, the first of them 0 only for 0. */
  predicate Decimal(s: seq<char>, v: int) {
    var digits := if v < 0 && s != [] then s[1..] else s;
    && s != [] && ReadNumber(s, 10) == v && (v < 0 ==> s[0] == '-')
    && digits != [] && (digits[0] == '0' ==> digits == "0" && v == 0)
    && forall i :: 0 <= i < |digits| ==> '0' <= digits[i] <= '9'
  }

  /** s is v in sixteen hexadecimal digits of that case. */
  predicate Hexadecimal(s: seq<char>, v: nat, upper: bool) {
    |s| == 16 && ReadDigits(s, 16) == v && forall i :: 0 <= i < 16 ==> DigitOf(s[i], 16, upper)
  }

  /** The letters of the conversions and the arguments they take. */
  predicate Takes(letters: seq<char>, a: Arg) {
    if letters == "d" then a.IntArg? && -0x8000_0000 < a.i < 0x8000_0000
    else if letters == "ld" then a.LongArg? && -0x8000_0000_0000_0000 < a.l < 0x8000_0000_0000_0000
    else if letters == "lu" || letters == "x" || letters == "X" then a.UlongArg?
    else if letters == "s" then a.StrArg?
    else letters == "c" && a.CharArg?
  }

  /** What a conversion prints of its argument, with no reference to the code. */
  predicate Prints(letters: seq<char>, a: Arg, s: seq<char>)
    requires Takes(letters, a)
  {
    if letters == "d" then Decimal(s, a.i)
    else if letters == "ld" then Decimal(s, a.l)
    else if letters == "lu" then Decimal(s, a.u)
    else if letters == "x" then Hexadecimal(s, a.u, false)
    else if letters == "X" then Hexadecimal(s, a.u, true)
    else if letters == "s" then s == a.s
    else s == [a.c]
  }

  /** A piece of a format: a character, a conversion, or a '%' before any other character, which the loop
      skips together with it. */
  datatype Item = Plain(c: char) | Convert(letters: seq<char>) | Skipped(c: char)

  function Spell(items: seq<Item>): seq<char> {
    if items == [] then []
    else
      (match items[0] case Plain(c) => [c] case Convert(letters) => ['%'] + letters case Skipped(c) => ['%', c])
      + Spell(items[1..])
  }

  predicate Conversion(letters: seq<char>) {
    letters == "d" || letters == "x" || letters == "X" || letters == "s" || letters == "c" || letters == "lu" || letters == "ld"
  }

  predicate Spellable(items: seq<Item>) {
    items == []
    || (&& Spellable(items[1..])
        && match items[0]
           case Plain(c) => c != '%'
           case Convert(letters) => Conversion(letters)
           case Skipped(c) =>
             && c != 'd' && c != 'x' && c != 'X' && c != 's' && c != 'c'
             && (c == 'l' ==> var rest := Spell(items[1..]); rest == [] || (rest[0] != 'u' && rest[0] != 'd')))
  }

  /** Each conversion has an argument of its type, in order. */
  predicate Typed(items: seq<Item>, args: seq<Arg>) {
    if items == [] then true
    else if items[0].Convert? then args != [] && Takes(items[0].letters, args[0]) && Typed(items[1..], args[1..])
    else Typed(items[1..], args)
  }

  /** Part by part: characters as they are, the k-th conversion its k-th argument, skipped ones nothing. */
  predicate Shown(items: seq<Item>, args: seq<Arg>, parts: seq<seq<char>>) {
    && |parts| == |items|
    && (items == []
        || match items[0]
           case Plain(c) => parts[0] == [c] && Shown(items[1..], args, parts[1..])
           case Skipped(_) => parts[0] == [] && Shown(items[1..], args, parts[1..])
           case Convert(letters) =>
             && args != [] && Takes(letters, args[0]) && Prints(letters, args[0], parts[0])
             && Shown(items[1..], args[1..], parts[1..]))
  }

  function Join(parts: seq<seq<char>>): seq<char> {
    if parts == [] then [] else parts[0] + Join(parts[1..])
  }

  // ---------- ... and that the code gives it ----------

  function DirectiveOf(letters: seq<char>): Directive {
    if letters == "d" then Dec else if letters == "x" then Hex else if letters == "X" then HexUpper
    else if letters == "s" then Str else if letters == "c" then Chr
    else if letters == "lu" then Ulong else if letters == "ld" then Long else Unknown
  }

  lemma ParseConversion(letters: seq<char>, rest: seq<char>)
    requires Conversion(letters)
    ensures Parse(['%'] + letters + rest) == (DirectiveOf(letters), |letters| + 1)
    ensures (['%'] + letters + rest)[|letters| + 1..] == rest
  {
  }

  lemma SignedIsDecimal(v: int)
    ensures Decimal(SignedText(v, 10), v)
  {
    SignedRoundTrip(v, 10);
    SignedCharacters(v, 10);
    if v == 0 {
      TextOfZero(10, false);
    } else {
      NoLeadingZero(if v < 0 then -v else v, 10, false);
    }
  }

  lemma UnsignedIsDecimal(v: nat)
    ensures Decimal(UnsignedText(v, 10, false), v)
  {
    UnsignedRoundTrip(v, 10, false);
    UnsignedCharacters(v, 10, false);
    if v == 0 {
      TextOfZero(10, false);
    } else {
      NoLeadingZero(v, 10, false);
    }
  }

  lemma UnsignedIsHexadecimal(v: u64, upper: bool)
    ensures Hexadecimal(UnsignedText(v, 16, upper), v, upper)
  {
    UnsignedRoundTrip(v, 16, upper);
    UnsignedCharacters(v, 16, upper);
    HexIsSixteenDigits(v, upper);
    assert DigitOf(UnsignedText(v, 16, upper)[0], 16, upper);
  }

  lemma TextPrints(letters: seq<char>, a: Arg)
    requires Conversion(letters)
    ensures Takes(letters, a) <==> Fits(DirectiveOf(letters), a)
    ensures Takes(letters, a) ==> Prints(letters, a, Text(DirectiveOf(letters), a))
  {
    hide Decimal, Hexadecimal, SignedText, UnsignedText;
    if a.IntArg? {
      SignedIsDecimal(a.i);
    } else if a.LongArg? {
      SignedIsDecimal(a.l);
    } else if a.UlongArg? {
      UnsignedIsDecimal(a.u);
      UnsignedIsHexadecimal(a.u, false);
      UnsignedIsHexadecimal(a.u, true);
    }
  }

  /** For a format put together from such items vsnprintf accepts exactly the arguments they call for. */
  lemma {:induction false} WellTypedIff(items: seq<Item>, args: seq<Arg>)
    requires Spellable(items)
    ensures WellTyped(Spell(items), args) <==> Typed(items, args)
  {
    hide Takes, Fits, Parse;
    if items != [] {
      FirstItem(items);
      match items[0]
      case Plain(c) => WellTypedIff(items[1..], args);
      case Skipped(c) => WellTypedIff(items[1..], args);
      case Convert(letters) =>
        if args != [] {
          TextPrints(letters, args[0]);
          WellTypedIff(items[1..], args[1..]);
        }
    }
  }

  /** How the loop takes the first item apart. */
  lemma FirstItem(items: seq<Item>)
    requires items != [] && Spellable(items)
    ensures var f, rest := Spell(items), Spell(items[1..]);
            match items[0]
            case Plain(c) => f != [] && f[0] == c != '%' && f[1..] == rest
            case Skipped(c) => |f| >= 2 && f[0] == '%' && Parse(f) == (Unknown, 2) && f[2..] == rest
            case Convert(letters) =>
              |f| >= 2 && f[0] == '%' && DirectiveOf(letters) != Unknown
              && Parse(f) == (DirectiveOf(letters), |letters| + 1) && |letters| + 1 <= |f| && f[|letters| + 1..] == rest
  {
    var f, rest := Spell(items), Spell(items[1..]);
    match items[0]
    case Plain(c) => assert f == [c] + rest;
    case Skipped(c) => assert f == ['%', c] + rest;
    case Convert(letters) =>
      assert f == ['%'] + letters + rest;
      ParseConversion(letters, rest);
  }

  /** And its expansion is what they show. */
  lemma {:induction false} ExpansionShows(items: seq<Item>, args: seq<Arg>) returns (parts: seq<seq<char>>)
    requires Spellable(items) && Typed(items, args)
    ensures WellTyped(Spell(items), args)
    ensures Shown(items, args, parts) && Expand(Pieces(Spell(items), args)) == Join(parts)
  {
    hide Takes, Fits, Parse, Prints, Text;
    WellTypedIff(items, args);
    if items == [] {
      parts := [];
    } else {
      FirstItem(items);
      match items[0]
      case Plain(c) =>
        var rest := ExpansionShows(items[1..], args);
        parts := [[c]] + rest;
      case Skipped(_) =>
        var rest := ExpansionShows(items[1..], args);
        parts := [[]] + rest;
      case Convert(letters) =>
        var rest := ExpansionShows(items[1..], args[1..]);
        TextPrints(letters, args[0]);
        parts := [Text(DirectiveOf(letters), args[0])] + rest;
      assert parts[1..] == rest;
    }
  }

  /** Every format vsnprintf accepts is put together like that. */
  lemma {:induction false} FormatIsSpelled(format: seq<char>, args: seq<Arg>) returns (items: seq<Item>)
    requires WellTyped(format, args)
    ensures Spellable(items) && Spell(items) == format
  {
    if format == [] {
      items := [];
    } else if format[0] != '%' {
      var rest := FormatIsSpelled(format[1..], args);
      items := [Plain(format[0])] + rest;
      assert items[1..] == rest;
    } else {
      hide Parse, Fits;
      var (d, n) := Parse(format);
      DirectiveIsSpelled(format);
      var rest := FormatIsSpelled(format[n..], if d == Unknown then args else args[1..]);
      var item := if d == Unknown then Skipped(format[1]) else Convert(format[1..n]);
      items := [item] + rest;
      assert items[0] == item && items[1..] == rest;
    }
  }

  lemma DirectiveIsSpelled(format: seq<char>)
    requires |format| >= 2 && format[0] == '%'
    ensures var (d, n) := Parse(format);
            if d == Unknown then
              var c, rest := format[1], format[2..];
              && n == 2 && ['%', c] + rest == format
              && c != 'd' && c != 'x' && c != 'X' && c != 's' && c != 'c'
              && (c == 'l' ==> rest == [] || (rest[0] != 'u' && rest[0] != 'd'))
            else Conversion(format[1..n]) && ['%'] + format[1..n] + format[n..] == format
  {
    assert format[1..2] == [format[1]];
    assert |format| > 2 ==> format[1..3] == [format[1], format[2]];
  }

  /** So for every format and arguments that vsnprintf accepts, the expansion is, part by part, what the
      format says: its characters, and in the place of the k-th conversion the k-th argument, a number as
      the decimal or the sixteen hexadecimal digits that read back as it. */
  lemma ExpansionMeans(format: seq<char>, args: seq<Arg>) returns (items: seq<Item>, parts: seq<seq<char>>)
    requires WellTyped(format, args)
    ensures Spellable(items) && Spell(items) == format && Typed(items, args)
    ensures Shown(items, args, parts) && Expand(Pieces(format, args)) == Join(parts)
  {
    items := FormatIsSpelled(format, args);
    WellTypedIff(items, args);
    parts := ExpansionShows(items, args);
  }

  /** The conversions one by one. */
  lemma OneConversion(letters: seq<char>, a: Arg)
    requires Conversion(letters) && Takes(letters, a)
    ensures WellTyped(['%'] + letters, [a])
    ensures Prints(letters, a, Expand(Pieces(['%'] + letters, [a])))
  {
    var items := [Convert(letters)];
    assert Spell(items) == ['%'] + letters;
    var parts := ExpansionShows(items, [a]);
    assert Join(parts) == parts[0];
  }

  // ---------- The code ----------

  /** The branches of vsnprintf that print an argument; a number leaves a NUL behind its text. */
  method PutDirective(d: Directive, a: Arg, buffer: array<char>, bufferIndex: nat) returns (n: nat)
    requires Fits(d, a) && bufferIndex + |Text(d, a)| < buffer.Length
    modifies buffer
    ensures n == |Text(d, a)|
    ensures Extended(old(buffer[..]), buffer[..], bufferIndex, Text(d, a))
  {
    ghost var t := Text(d, a);
    match d
    case Dec => n := Itoa(a.i, buffer, bufferIndex, 10);
    case Long => n := Ltoa(a.l, buffer, bufferIndex, 10);
    case Hex => n := Ultoa(a.u, buffer, bufferIndex, 16, false);
    case HexUpper => n := Ultoa(a.u, buffer, bufferIndex, 16, true);
    case Ulong => n := Ultoa(a.u, buffer, bufferIndex, 10, false);
    case Chr =>
      buffer[bufferIndex] := a.c;
      n := 1;
    case Str =>
      n := PutString(a.s, buffer, bufferIndex);
  }

  method PutString(s: seq<char>, buffer: array<char>, bufferIndex: nat) returns (n: nat)
    requires bufferIndex + |s| < buffer.Length
    modifies buffer
    ensures n == |s|
    ensures buffer[..] == Splice(old(buffer[..]), bufferIndex, s)
  {
    n := 0;
    while n < |s|
      invariant n <= |s|
      invariant buffer[..] == Splice(old(buffer[..]), bufferIndex, s[..n])
    {
      SpliceAppend(old(buffer[..]), bufferIndex, s[..n], s[n]);
      assert s[..n] + [s[n]] == s[..n + 1];
      buffer[bufferIndex + n] := s[n];
      n := n + 1;
    }
    assert s[..n] == s;
  }

  /** From a to b the text t was put at off; the character behind it may have changed as well. */
  predicate Extended(a: seq<char>, b: seq<char>, off: nat, t: seq<char>) {
    && off + |t| < |a| == |b|
    && b[..off + |t|] == a[..off] + t
    && b[off + |t| + 1..] == a[off + |t| + 1..]
  }

  /** The output so far is in front; behind it and one more character nothing has changed. */
  predicate Produced(a: seq<char>, b: seq<char>, done: seq<char>) {
    && |done| < |a| == |b|
    && b[..|done|] == done
    && b[|done| + 1..] == a[|done| + 1..]
  }

  lemma ProducedMore(a: seq<char>, b: seq<char>, b': seq<char>, done: seq<char>, t: seq<char>)
    requires Produced(a, b, done) && Extended(b, b', |done|, t)
    ensures Produced(a, b', done + t)
  {
  }

  /** What the rest of the format still adds, one turn of the loop further on. */
  lemma NextPiece(format: seq<char>, args: seq<Arg>, i: nat, k: nat)
    requires i < |format| && k <= |args| && WellTyped(format[i..], args[k..])
    ensures if format[i] != '%' then
              && WellTyped(format[i + 1..], args[k..])
              && Pieces(format[i..], args[k..]) == [Literal(format[i])] + Pieces(format[i + 1..], args[k..])
            else
              && |format[i..]| >= 2
              && var (d, n) := Parse(format[i..]);
                 if d == Unknown then
                   && WellTyped(format[i + n..], args[k..])
                   && Pieces(format[i..], args[k..]) == Pieces(format[i + n..], args[k..])
                 else
                   && k < |args| && Fits(d, args[k]) && WellTyped(format[i + n..], args[k + 1..])
                   && Pieces(format[i..], args[k..]) == [Output(Text(d, args[k]))] + Pieces(format[i + n..], args[k + 1..])
  {
  }

  /** vsnprintf.  The memory at buffer must have room for the output, which directives can push beyond size. */
  method Vsnprintf(buffer: array<char>, size: nat, format: seq<char>, args: seq<Arg>) returns (bufferIndex: nat)
    requires 0 < size <= buffer.Length && WellTyped(format, args)
    requires HasRoom(Pieces(format, args), size, buffer.Length)
    modifies buffer
    ensures bufferIndex == |Render(Pieces(format, args), size, 0)| < buffer.Length
    ensures if bufferIndex < size
            then buffer[..bufferIndex + 1] == Render(Pieces(format, args), size, 0) + ['\0']
            else buffer[..bufferIndex] == Render(Pieces(format, args), size, 0)[size - 1 := '\0']
    ensures buffer[bufferIndex + 1..] == old(buffer[bufferIndex + 1..])
  {
    hide WellTyped, Pieces, Render, Text, Fits, Parse, HasRoom, LiteralIn, LiteralAt, Expand;
    RoomForOutput(Pieces(format, args), size, buffer.Length);
    bufferIndex := 0;
    var i, nextArg := 0, 0;
    ghost var a, full, done := buffer[..], Render(Pieces(format, args), size, 0), [];
    ghost var pieces := Pieces(format, args);
    assert format[i..] == format && args[nextArg..] == args;
    while i < |format|
      invariant i <= |format| && nextArg <= |args| && WellTyped(format[i..], args[nextArg..])
      invariant pieces == Pieces(format[i..], args[nextArg..])
      invariant bufferIndex == |done| && done + Render(pieces, size, bufferIndex) == full
      invariant Produced(a, buffer[..], done)
    {
      NextPiece(format, args, i, nextArg);
      ghost var b := buffer[..];
      if format[i] == '%' {
        var (d, n) := Parse(format[i..]);
        if d != Unknown {
          RenderOutput(pieces, size, bufferIndex, done);
          var m := PutDirective(d, args[nextArg], buffer, bufferIndex);
          ProducedMore(a, b, buffer[..], done, pieces[0].s);
          done := done + pieces[0].s;
          bufferIndex := bufferIndex + m;
          nextArg := nextArg + 1;
          pieces := pieces[1..];
        }
        i := i + n;
      } else {
        if bufferIndex < size - 1 {
          RenderLiteral(pieces, size, bufferIndex, done);
          buffer[bufferIndex] := format[i];
          ProducedMore(a, b, buffer[..], done, [format[i]]);
          done := done + [format[i]];
          bufferIndex := bufferIndex + 1;
          pieces := pieces[1..];
          i := i + 1;
        } else {
          RenderStops(pieces, size, bufferIndex, done);
          break;
        }
      }
    }
    if i == |format| {
      NothingLeft(format, args[nextArg..], size, bufferIndex, done);
    }
    if bufferIndex < size {
      buffer[bufferIndex] := '\0';
    } else {
      buffer[size - 1] := '\0';
    }
  }

  /** The line kprintf prints (src/lib/str.c:299-306): vsnprintf into 256 characters of its own.  The calls
      that write nothing outside them are those of the precondition, no more and no fewer. */
  method PrintLine(format: seq<char>, args: seq<Arg>) returns (line: seq<char>)
    requires WellTyped(format, args)
    requires |Expand(Pieces(format, args))| < 256 || LiteralAt(Pieces(format, args), 255)
    ensures |line| < 256 && line == Render(Pieces(format, args), 256, 0) <= Expand(Pieces(format, args))
    ensures |line| < 255 ==> line == Expand(Pieces(format, args))
  {
    hide WellTyped, Pieces, Render, Expand, LiteralAt;
    ghost var pieces := Pieces(format, args);
    HasRoomForSize(pieces, 256);
    KeepsToSizeIff(pieces, 256, 0);
    RenderIsPrefix(pieces, 256, 0);
    StopsAtSize(pieces, 256, 0);
    var buffer := new char[256];
    var bufferIndex := Vsnprintf(buffer, 256, format, args);
    line := buffer[..bufferIndex + 1][..bufferIndex];
  }

  /** A cut-off output ends at or behind the last place that size leaves. */
  lemma {:induction false} StopsAtSize(pieces: seq<Piece>, size: nat, idx: nat)
    requires 0 < size
    ensures idx + |Render(pieces, size, idx)| < size - 1 ==> Render(pieces, size, idx) == Expand(pieces)
  {
    if pieces != [] {
      StopsAtSize(pieces[1..], size, idx + match pieces[0] case Literal(_) => 1 case Output(s) => |s|);
    }
  }

  lemma RenderStops(pieces: seq<Piece>, size: nat, idx: nat, done: seq<char>)
    requires pieces != [] && pieces[0].Literal? && idx >= size - 1
    ensures done + Render(pieces, size, idx) == done
  {
  }

  lemma NothingLeft(format: seq<char>, args: seq<Arg>, size: nat, idx: nat, done: seq<char>)
    requires WellTyped(format[|format|..], args)
    ensures done + Render(Pieces(format[|format|..], args), size, idx) == done
  {
  }

  lemma RenderOutput(pieces: seq<Piece>, size: nat, idx: nat, done: seq<char>)
    requires pieces != [] && pieces[0].Output?
    ensures var t := pieces[0].s;
            && done + Render(pieces, size, idx) == (done + t) + Render(pieces[1..], size, idx + |t|)
            && |done + t| <= |done + Render(pieces, size, idx)|
  {
  }

  lemma RenderLiteral(pieces: seq<Piece>, size: nat, idx: nat, done: seq<char>)
    requires pieces != [] && pieces[0].Literal? && idx < size - 1
    ensures done + Render(pieces, size, idx) == (done + [pieces[0].c]) + Render(pieces[1..], size, idx + 1)
    ensures |done| < |done + Render(pieces, size, idx)|
  {
  }
}
