/** The texts the two nodes exchange: requests and the opening handshake. */
module Wire {
  import opened Basics
  import opened Numerals
  import opened Quotients

  const READ_OP := 1
  const INVALIDATE_OP := 2

  // %d
  function PrintInt(n: int): string {
    if n < 0 then "-" + Numeral(-n, 10) else Numeral(n, 10)
  }

  /** The text of `sprintf("%d-%d")` in communicateWithPeer. */
  function Encode(page: int, op: int): string {
    PrintInt(page) + "-" + PrintInt(op)
  }

  function SkipDashes(s: string): string {
    if s != "" && s[0] == '-' then SkipDashes(s[1..]) else s
  }

  function BeforeDash(s: string): string {
    if s == "" || s[0] == '-' then "" else [s[0]] + BeforeDash(s[1..])
  }

  lemma BeforeDashPrefix(s: string)
    ensures |BeforeDash(s)| <= |s| && BeforeDash(s) == s[..|BeforeDash(s)|]
    ensures '-' !in BeforeDash(s)
  {
  }

  // One call of strtok with "-": the token, and what the next call goes on with.
  function Strtok(s: string): Option<(string, string)> {
    var s' := SkipDashes(s);
    if s' == "" then None
    else
      var token := BeforeDash(s');
      BeforeDashPrefix(s');
      Some((token, if |token| == |s'| then "" else s'[|token| + 1..]))
  }

  predicate IsSpace(c: char) {
    c == ' ' || '\t' <= c <= '\r'
  }

  function SkipSpaces(s: string): string {
    if s != "" && IsSpace(s[0]) then SkipSpaces(s[1..]) else s
  }

  function Atoi(s: string): int {
    var t := SkipSpaces(s);
    if t == "" then 0
    else if t[0] == '-' then -(ReadDigits(t[1..], 10, 0) as int)
    else ReadDigits(if t[0] == '+' then t[1..] else t, 10, 0)
  }

  /** The responder's parse: None where strtok gives NULL and atoi would fault. */
  function Parse(buffer: string): Option<(int, int)> {
    match Strtok(buffer)
    case None => None
    case Some((page, rest)) =>
      match Strtok(rest)
      case None => None
      case Some((op, _)) => Some((Atoi(page), Atoi(op)))
  }

  predicate DashFree(s: string) {
    '-' !in s
  }

  lemma {:induction false} TokenOf(t: string, rest: string)
    requires t != "" && DashFree(t)
    ensures BeforeDash(t + "-" + rest) == t
    ensures BeforeDash(t) == t
  {
    assert (t + "-" + rest)[1..] == t[1..] + "-" + rest;
    if |t| == 1 {
      assert t[1..] == "";
    } else {
      TokenOf(t[1..], rest);
    }
  }

  lemma StrtokToken(t: string, rest: string)
    requires t != "" && DashFree(t)
    ensures Strtok(t + "-" + rest) == Some((t, rest))
    ensures Strtok(t) == Some((t, ""))
  {
    TokenOf(t, rest);
  }

  lemma AtoiNumeral(n: nat)
    ensures DashFree(Numeral(n, 10)) && Atoi(Numeral(n, 10)) == n
  {
    var s := Numeral(n, 10);
    NumeralDigits(n, 10);
    assert s[0] in DIGITS;
    ReadNumeral(n, 10, "");
    assert s + "" == s;
  }

  function Abs(x: int): nat {
    if x < 0 then -x else x
  }

  lemma {:induction false} StrtokDash(u: string)
    ensures Strtok("-" + u) == Strtok(u)
  {
    assert ("-" + u)[1..] == u;
    assert SkipDashes("-" + u) == SkipDashes(u);
  }

  // strtok drops a sign together with the separator before it.
  lemma {:induction false} StrtokInt(x: int, rest: string)
    ensures Strtok(PrintInt(x) + "-" + rest) == Some((Numeral(Abs(x), 10), rest))
    ensures Strtok(PrintInt(x)) == Some((Numeral(Abs(x), 10), ""))
  {
    hide Strtok, Numeral;
    var t := Numeral(Abs(x), 10);
    AtoiNumeral(Abs(x));
    StrtokToken(t, rest);
    if x < 0 {
      assert "-" + t + "-" + rest == "-" + (t + "-" + rest);
      StrtokDash(t + "-" + rest);
      StrtokDash(t);
    }
  }

  /** What the responder makes of a request: both numbers without their signs. So a request
      survives the wire exactly when neither number is negative. */
  lemma {:induction false} RequestRoundTrip(page: int, op: int)
    ensures Parse(Encode(page, op)) == Some((if page < 0 then -page else page, if op < 0 then -op else op))
    ensures Parse(Encode(page, op)) == Some((page, op)) <==> page >= 0 && op >= 0
  {
    StrtokInt(page, PrintInt(op));
    StrtokInt(op, "");
    AtoiNumeral(Abs(page));
    AtoiNumeral(Abs(op));
  }

  /** The texts of the two requests. */
  lemma RequestTexts(page: nat)
    ensures Encode(page, READ_OP) == Numeral(page, 10) + "-" + "1"
    ensures Encode(page, INVALIDATE_OP) == Numeral(page, 10) + "-" + "2"
  {
  }

  // What atoi makes of a sign, and of any kind of white space before it.
  lemma {:induction false} AtoiSigned(n: nat, c: char)
    requires c in " \t\n\U{0b}\U{0c}\r"
    ensures Atoi("-" + Numeral(n, 10)) == -(n as int)
    ensures Atoi("+" + Numeral(n, 10)) == n
    ensures Atoi([c] + Numeral(n, 10)) == n
  {
    var s := Numeral(n, 10);
    AtoiNumeral(n);
    NumeralDigits(n, 10);
    assert s[0] in DIGITS;
    ReadNumeral(n, 10, "");
    assert s + "" == s;
    assert ("-" + s)[1..] == s && ("+" + s)[1..] == s && ([c] + s)[1..] == s;
  }

  // A buffer with a single number is no request: the second strtok gives NULL.
  lemma {:induction false} OneTokenIsNone(t: string)
    requires DashFree(t)
    ensures Parse(t) == None
  {
    if t != "" {
      StrtokToken(t, "");
    }
  }

  // ---------- the handshake ----------

  /** strtoul with base 0: 0x for hexadecimal, a leading 0 for octal, saturating. */
  function Strtoul0(s: string): nat {
    var t := SkipSpaces(s);
    var u := if t != "" && t[0] == '+' then t[1..] else t;
    var value :=
      if |u| >= 3 && u[0] == '0' && u[1] in "xX" && DigitValue(u[2]) < 16 then ReadDigits(u[2..], 16, 0)
      else if u != "" && u[0] == '0' then ReadDigits(u, 8, 0)
      else ReadDigits(u, 10, 0);
    if value < WORD then value else WORD - 1
  }

  /** sscanf with %p: hexadecimal, with or without the 0x. */
  function ScanPointer(s: string): nat {
    var t := SkipSpaces(s);
    var value := ReadDigits(if |t| >= 2 && t[0] == '0' && t[1] in "xX" then t[2..] else t, 16, 0);
    if value < WORD then value else WORD - 1
  }

  // len = num_pages * page_size, in an unsigned long.
  function Length(pages: nat, pageSize: nat): nat {
    pages * pageSize % WORD
  }

  /** The first node's `"%lu-%p"`, for an address other than NULL. */
  function Greeting(pages: nat, pageSize: nat, address: nat): string {
    Numeral(Length(pages, pageSize), 10) + "-" + "0x" + Numeral(address, 16)
  }

  // What the second node makes of it: the length, the number of pages and the address.
  function Accept(buffer: string, pageSize: nat): Option<(nat, nat, nat)>
    requires pageSize > 0
  {
    match Strtok(buffer)
    case None => None
    case Some((length, rest)) =>
      match Strtok(rest)
      case None => None
      case Some((address, _)) =>
        Some((Strtoul0(length), Strtoul0(length) / pageSize, ScanPointer(address)))
  }

  lemma StrtoulDecimal(n: nat)
    requires n < WORD
    ensures Strtoul0(Numeral(n, 10)) == n
  {
    var s := Numeral(n, 10);
    NumeralDigits(n, 10);
    assert s[0] in DIGITS;
    assert s + "" == s;
    NumeralHead(n, 10);
    if n == 0 {
      assert s == "0";
      assert s[1..] == "";
      assert ReadDigits(s, 8, 0) == ReadDigits("", 8, 0);
    } else {
      ReadNumeral(n, 10, "");
    }
  }

  // Base 0 goes by the prefix.
  lemma {:induction false} StrtoulHex(n: nat)
    requires n < WORD
    ensures Strtoul0("0x" + Numeral(n, 16)) == n
  {
    var s := Numeral(n, 16);
    var t := "0x" + s;
    NumeralDigits(n, 16);
    assert s[0] in DIGITS && DigitValue(s[0]) < 16;
    assert t[2..] == s && t[0] == '0' && t[1] == 'x' && t[2] == s[0] && SkipSpaces(t) == t;
    assert s + "" == s;
    ReadNumeral(n, 16, "");
    hide ReadDigits, Numeral;
    assert Strtoul0(t) == n;
  }

  lemma {:induction false} StrtoulOctal(n: nat)
    requires n < WORD
    ensures Strtoul0("0" + Numeral(n, 8)) == n
  {
    var s := Numeral(n, 8);
    var t := "0" + s;
    NumeralDigits(n, 8);
    assert s[0] in DIGITS;
    assert t[1..] == s && t[0] == '0' && t[1] == s[0] && SkipSpaces(t) == t;
    assert s + "" == s;
    ReadNumeral(n, 8, "");
    assert ReadDigits(t, 8, 0) == ReadDigits(s, 8, 0);
    hide ReadDigits, Numeral;
    assert Strtoul0(t) == n;
  }

  lemma {:induction false} StrtoulSaturates(n: nat)
    requires n >= 0x1_0000_0000_0000_0000
    ensures Strtoul0(Numeral(n, 10)) == 0xffff_ffff_ffff_ffff
  {
    var s := Numeral(n, 10);
    NumeralDigits(n, 10);
    NumeralHead(n, 10);
    assert s[0] in DIGITS;
    assert s + "" == s;
    ReadNumeral(n, 10, "");
  }

  lemma ScanHex(s: string)
    requires ReadDigits(s, 16, 0) < WORD
    ensures ScanPointer("0x" + s) == ReadDigits(s, 16, 0)
  {
    var pointer := "0x" + s;
    assert pointer[2..] == s && pointer[0] == '0' && pointer[1] == 'x';
    assert SkipSpaces(pointer) == pointer;
  }

  lemma {:induction false} ScanPrinted(n: nat)
    requires n < WORD
    ensures DashFree("0x" + Numeral(n, 16)) && ScanPointer("0x" + Numeral(n, 16)) == n
  {
    var s := Numeral(n, 16);
    NumeralDigits(n, 16);
    assert s + "" == s;
    ReadNumeral(n, 16, "");
    ScanHex(s);
  }

  // The 0x may be missing.
  lemma {:induction false} ScanBare(n: nat)
    requires n < WORD
    ensures ScanPointer(Numeral(n, 16)) == n
  {
    var s := Numeral(n, 16);
    NumeralDigits(n, 16);
    assert s[0] in DIGITS && (|s| > 1 ==> s[1] in DIGITS);
    assert s + "" == s;
    ReadNumeral(n, 16, "");
    hide ReadDigits, Numeral;
    assert ScanPointer(s) == n;
  }

  lemma {:induction false} PagesRecovered(pages: nat, pageSize: nat)
    requires pageSize > 0
    ensures Length(pages, pageSize) / pageSize == pages <==> pages * pageSize < WORD
  {
    var product := pages * pageSize;
    if product < WORD {
      QuotientBelow(product, pages, pageSize);
      QuotientBelow(product, pages + 1, pageSize);
    } else {
      QuotientBelow(Length(pages, pageSize), pages, pageSize);
    }
  }

  /** The second node always recovers the length and the address; it agrees on the number
      of pages exactly when the product did not overflow. */
  lemma HandshakeRoundTrip(pages: nat, pageSize: nat, address: nat)
    requires pageSize > 0 && 0 < address < WORD
    ensures
      var accepted := Accept(Greeting(pages, pageSize, address), pageSize);
      && accepted.Some?
      && accepted.value.0 == pages * pageSize % 0x1_0000_0000_0000_0000
      && accepted.value.2 == address
      && (accepted.value.1 == pages <==> pages * pageSize < 0x1_0000_0000_0000_0000)
  {
    var length, pointer := Numeral(Length(pages, pageSize), 10), "0x" + Numeral(address, 16);
    AtoiNumeral(Length(pages, pageSize));
    StrtoulDecimal(Length(pages, pageSize));
    ScanPrinted(address);
    assert Greeting(pages, pageSize, address) == length + "-" + pointer;
    StrtokToken(length, pointer);
    StrtokToken(pointer, "");
    PagesRecovered(pages, pageSize);
  }
}
