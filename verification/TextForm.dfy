/** The text form of buffers: one line a field, tabs for nesting, a blank line at the end. */
module TextForm {
  import opened Bytes
  import opened Wrappers
  import opened Scanning
  import opened Escapes
  import opened Decimal
  import opened FieldSeq
  import opened Records
  import opened Expressions
  import opened ExprMeaning
  import opened ExprPrint

  const PLUS: byte := 43
  const EQUALS: byte := 61

  datatype Content =
    | Short(n: int)
    | Int(n: int)
    | Char(c: byte)
    | Float(b: seq<byte>)
    | Real(b: seq<byte>)
    | Chars(s: seq<byte>)
    | Raw(s: seq<byte>)
    | Nested(fields: seq<Field<Content>>)

  type Contents = seq<Field<Content>>

  /** The field names both ways, and the machine's text of floating point numbers. */
  datatype Tables = Tables(
    ids: map<seq<byte>, nat>,
    names: map<nat, seq<byte>>,
    fixed: seq<byte> -> seq<byte>,
    single: seq<byte> -> seq<byte>,
    double: seq<byte> -> seq<byte>
  )

  datatype Error = Syntax | BadField

  // ---- printing ----

  predicate IsPrint(c: byte) { 32 <= c < 127 }

  function HexDigit(n: nat): (c: byte)
    requires n < 16
    ensures IsHex(c) && Base16(c) == n
  {
    if n < 10 then 48 + n else 87 + n
  }

  /** A byte as it is, or escaped; one that is negative as a char takes eight digits. */
  function ShowByte(c: byte): seq<byte> {
    if IsPrint(c) then [c]
    else [BACKSLASH] + (if c < 128 then [] else [102, 102, 102, 102, 102, 102]) + [HexDigit(c / 16), HexDigit(c % 16)]
  }

  function ShowBytes(s: seq<byte>): seq<byte> {
    if s == [] then [] else ShowByte(s[0]) + ShowBytes(s[1..])
  }

  function Tabs(n: nat): (s: seq<byte>)
    ensures |s| == n
    ensures forall i :: 0 <= i < n ==> s[i] == TAB
  {
    if n == 0 then [] else Tabs(n - 1) + [TAB]
  }

  function ShowName(t: Tables, id: nat): seq<byte> {
    if id in t.names then t.names[id] else [40, 70, 76, 68, 73, 68, 51, 50, 40] + Text(ToInt32(id)) + [41, 41]
  }

  function ShowContent(t: Tables, v: Content, indent: nat): seq<byte>
    decreases v
  {
    match v
    case Short(n) => Text(n)
    case Int(n) => Text(n)
    case Char(c) => ShowByte(c)
    case Float(b) => t.fixed(b)
    case Real(b) => t.fixed(b)
    case Chars(s) => ShowBytes(s)
    case Raw(s) => ShowBytes(s)
    case Nested(fs) => [NEWLINE] + ShowFields(t, fs, indent + 1)
  }

  function ShowLine(t: Tables, f: Field<Content>, indent: nat): (s: seq<byte>)
    ensures |s| > 0
    decreases f
  {
    Tabs(indent) + ShowName(t, f.id) + [TAB] + ShowContent(t, f.value, indent) + [NEWLINE]
  }

  function ShowFields(t: Tables, fs: Contents, indent: nat): seq<byte>
    decreases fs
  {
    if fs == [] then [] else ShowLine(t, fs[0], indent) + ShowFields(t, fs[1..], indent)
  }

  method PrintBytes(s: seq<byte>) returns (out: seq<byte>)
    ensures out == ShowBytes(s)
  {
    hide *;
    out := [];
    ShowBytesFrom(s, 0);
    for i := 0 to |s|
      invariant out + ShowBytes(s[i..]) == ShowBytes(s)
    {
      ShowBytesFrom(s, i);
      Regroup3(out, ShowByte(s[i]), ShowBytes(s[i + 1..]));
      out := out + ShowByte(s[i]);
    }
    ShowBytesFrom(s, |s|);
    NothingAdded(out);
  }

  lemma ShowBytesFrom(s: seq<byte>, i: nat)
    requires i <= |s|
    ensures ShowBytes(s[i..]) == if i == |s| then [] else ShowByte(s[i]) + ShowBytes(s[i + 1..])
    ensures s[0..] == s
    ensures [] + ShowBytes(s[i..]) == ShowBytes(s[i..])
  {
    if i < |s| {
      assert s[i..][1..] == s[i + 1..];
    }
  }

  lemma Regroup3(a: seq<byte>, b: seq<byte>, c: seq<byte>)
    ensures a + b + c == a + (b + c)
  {
  }

  lemma NothingAdded(a: seq<byte>)
    ensures a + [] == a
  {
  }

  /** Prints the fields of a buffer; the outermost one ends in a blank line. */
  method Fprint(t: Tables, fs: Contents, indent: nat) returns (out: seq<byte>)
    ensures out == ShowFields(t, fs, indent) + if indent == 0 then [NEWLINE] else []
    decreases fs, 0
  {
    hide *;
    out := [];
    ShowFieldsFrom(t, fs, 0, indent);
    for k := 0 to |fs|
      invariant out + ShowFields(t, fs[k..], indent) == ShowFields(t, fs, indent)
    {
      ShowFieldsFrom(t, fs, k, indent);
      Regroup3(out, ShowLine(t, fs[k], indent), ShowFields(t, fs[k + 1..], indent));
      var line := PrintField(t, fs[k], indent);
      out := out + line;
    }
    ShowFieldsFrom(t, fs, |fs|, indent);
    NothingAdded(out);
    if indent == 0 {
      out := out + [NEWLINE];
    }
  }

  lemma ShowFieldsFrom(t: Tables, fs: Contents, k: nat, indent: nat)
    requires k <= |fs|
    ensures ShowFields(t, fs[k..], indent) ==
            if k == |fs| then [] else ShowLine(t, fs[k], indent) + ShowFields(t, fs[k + 1..], indent)
    ensures fs[0..] == fs
    ensures [] + ShowFields(t, fs[k..], indent) == ShowFields(t, fs[k..], indent)
  {
    if k < |fs| {
      assert fs[k..][1..] == fs[k + 1..];
    }
  }

  method PrintField(t: Tables, f: Field<Content>, indent: nat) returns (out: seq<byte>)
    ensures out == ShowLine(t, f, indent)
    decreases f, 0
  {
    var value;
    match f.value {
      case Short(n) => value := Text(n);
      case Int(n) => value := Text(n);
      case Char(c) =>
        value := PrintBytes([c]);
        assert [c][1..] == [];
      case Float(b) => value := t.fixed(b);
      case Real(b) => value := t.fixed(b);
      case Chars(s) => value := PrintBytes(s);
      case Raw(s) => value := PrintBytes(s);
      case Nested(fs) =>
        value := Fprint(t, fs, indent + 1);
        value := [NEWLINE] + value;
    }
    out := Tabs(indent) + ShowName(t, f.id) + [TAB] + value + [NEWLINE];
  }

  // ---- reading ----

  datatype Read<T> = Got(value: T, end: nat) | Bad(error: Error)

  predicate IsFlag(c: byte) { c == PLUS || c == MINUS || c == EQUALS }

  /** A value up to the end of its line. */
  function ReadValue(text: seq<byte>, p: nat): (r: Read<seq<byte>>)
    requires p <= |text|
    ensures r.Got? ==> p <= r.end <= |text| && (r.end == |text| || text[r.end] == NEWLINE)
    ensures r.Bad? ==> r.error == Syntax
  {
    match ReadEscaped(text, p, NEWLINE)
    case Ended(s, q) => Got(s, q)
    case HalfHex => Bad(Syntax)
  }

  function ToShort(n: int): (r: int)
    ensures -0x8000 <= r < 0x8000
    ensures -0x8000 <= n < 0x8000 ==> r == n
    ensures (r - n) % 0x1_0000 == 0
  {
    (n + 0x8000) % 0x1_0000 - 0x8000
  }

  /** The text of a value as a value of the field's type. A byte array gains the NUL. */
  function Convert(t: Tables, type_: nat, text: seq<byte>): Content {
    var s := CText(text);
    if type_ == FLD_SHORT then Short(ToShort(LongOf(s)))
    else if type_ == FLD_LONG then Int(LongOf(s))
    else if type_ == FLD_CHAR then Char(if s == [] then 0 else s[0])
    else if type_ == FLD_FLOAT then Float(t.single(s))
    else if type_ == FLD_DOUBLE then Real(t.double(s))
    else if type_ == FLD_STRING then Chars(s)
    else Raw(s + [0])
  }

  datatype Line = Blank(end: nat) | Added(fs: Contents, end: nat) | Broken(error: Error)

  /** The name and value of a line behind its tabs. */
  function ReadPair(text: seq<byte>, p: nat): (r: Read<(seq<byte>, seq<byte>)>)
    requires p <= |text|
    ensures r.Got? ==> p < r.end <= |text|
  {
    var n := if AtAny(text, p, IsFlag) then p + 1 else p;
    if !AtAny(text, n, IsAlpha) then Bad(Syntax)
    else
      var e := NameEnd(text, n);
      if !At(text, e, TAB) then Bad(Syntax)
      else
        match ReadValue(text, e + 1)
        case Bad(error) => Bad(error)
        case Got(v, q) => if At(text, q, NEWLINE) then Got((text[n..e], v), q + 1) else Bad(Syntax)
  }

  predicate TabsAt(text: seq<byte>, p: nat, n: nat) {
    p + n <= |text| && forall i :: p <= i < p + n ==> text[i] == TAB
  }

  function AddNested(r: Read<Contents>, fs: Contents, id: nat): Line {
    match r
    case Bad(e) => Broken(e)
    case Got(nested, q) => Added(Put(fs, id, -1, Nested(nested)), q)
  }

  /** One line, added to the fields read so far. */
  function ReadLine(t: Tables, text: seq<byte>, p: nat, indent: nat, fs: Contents): (r: Line)
    requires p <= |text|
    ensures !r.Broken? ==> p < r.end <= |text|
    decreases |text| - p, 0
  {
    if At(text, p, NEWLINE) then Blank(p + 1)
    else if !TabsAt(text, p, indent) then Broken(Syntax)
    else
      match ReadPair(text, p + indent)
      case Bad(e) => Broken(e)
      case Got((name, v), q) =>
        if name !in t.ids || !ValidId(t.ids[name]) then Broken(BadField)
        else if FldType(t.ids[name]) == FLD_FML32 then
          AddNested(ReadBuf(t, text, q, indent + 1, []), fs, t.ids[name])
        else Added(Put(fs, t.ids[name], -1, Convert(t, FldType(t.ids[name]), v)), q)
  }

  /** Lines up to and with a blank one. */
  function ReadBuf(t: Tables, text: seq<byte>, p: nat, indent: nat, fs: Contents): (r: Read<Contents>)
    requires p <= |text|
    ensures r.Got? ==> p < r.end <= |text|
    decreases |text| - p, 1
  {
    match ReadLine(t, text, p, indent, fs)
    case Blank(q) => Got(fs, q)
    case Broken(e) => Bad(e)
    case Added(more, q) => ReadBuf(t, text, q, indent, more)
  }

  class ExtReader {
    const scan: Scanner
    const t: Tables

    constructor (t: Tables, text: seq<byte>)
      ensures scan.Valid() && fresh(scan) && scan.text == text && scan.pos == 0 && this.t == t
    {
      this.t := t;
      scan := new Scanner(text);
    }

    method Value() returns (r: Result<seq<byte>, Error>)
      requires scan.Valid()
      modifies scan
      ensures scan.Valid()
      ensures match ReadValue(scan.text, old(scan.pos))
              case Got(s, q) => r == Ok(s) && scan.pos == q
              case Bad(e) => r == Err(e)
    {
      hide ReadEscaped, HexByte, IsHex, Onwards;
      var s: seq<byte> := [];
      ghost var start := scan.pos;
      ghost var whole := ReadEscaped(scan.text, scan.pos, NEWLINE);
      OnwardsFirst(whole);
      while true
        invariant scan.Valid() && start <= scan.pos
        invariant Onwards(whole, s, ReadEscaped(scan.text, scan.pos, NEWLINE))
        decreases |scan.text| - scan.pos
      {
        OneEscape(whole, s, scan.text, scan.pos, NEWLINE);
        var slash := scan.Accept(BACKSLASH);
        if slash {
          var h := scan.Hex();
          if h.Err? {
            return Err(Syntax);
          }
          if h.value.Some? {
            s := s + [h.value.value];
          }
        } else {
          var c := scan.AcceptIf(x => x != NEWLINE);
          if c.None? {
            break;
          }
          s := s + [c.value];
        }
      }
      r := Ok(s);
    }

    method Pair() returns (r: Result<(seq<byte>, seq<byte>), Error>)
      requires scan.Valid()
      modifies scan
      ensures scan.Valid()
      ensures match ReadPair(scan.text, old(scan.pos))
              case Got(pair, q) => r == Ok(pair) && scan.pos == q
              case Bad(e) => r == Err(e)
    {
      hide ReadValue, NameEnd;
      var _ := scan.AcceptIf(IsFlag);
      var name := scan.Name();
      if name == [] {
        return Err(Syntax);
      }
      var tab := scan.Accept(TAB);
      if !tab {
        return Err(Syntax);
      }
      var value := Value();
      if value.Err? {
        return Err(value.error);
      }
      var newline := scan.Accept(NEWLINE);
      if !newline {
        return Err(Syntax);
      }
      r := Ok((name, value.value));
    }

    /** One line, added to `fs`; nothing for the blank line that ends a buffer. */
    method ParseLine(fs: Contents, indent: nat) returns (r: Result<Option<Contents>, Error>)
      requires scan.Valid()
      modifies scan
      ensures scan.Valid()
      ensures match ReadLine(t, scan.text, old(scan.pos), indent, fs)
              case Blank(q) => r == Ok(None) && scan.pos == q
              case Added(more, q) => r == Ok(Some(more)) && scan.pos == q
              case Broken(e) => r == Err(e)
      decreases |scan.text| - scan.pos, 0
    {
      hide ReadPair, ReadBuf, Put, Convert;
      var newline := scan.Accept(NEWLINE);
      if newline {
        return Ok(None);
      }
      for i := 0 to indent
        invariant scan.Valid() && scan.pos == old(scan.pos) + i
        invariant TabsAt(scan.text, old(scan.pos), i)
      {
        var tab := scan.Accept(TAB);
        if !tab {
          return Err(Syntax);
        }
      }
      var pair := Pair();
      if pair.Err? {
        return Err(pair.error);
      }
      var (name, value) := pair.value;
      if name !in t.ids || !ValidId(t.ids[name]) {
        return Err(BadField);
      }
      var id := t.ids[name];
      if FldType(id) == FLD_FML32 {
        var nested := ParseBuf(indent + 1);
        if nested.Err? {
          return Err(nested.error);
        }
        r := Ok(Some(Put(fs, id, -1, Nested(nested.value))));
      } else {
        r := Ok(Some(Put(fs, id, -1, Convert(t, FldType(id), value))));
      }
    }

    method ParseBuf(indent: nat) returns (r: Result<Contents, Error>)
      requires scan.Valid()
      modifies scan
      ensures scan.Valid()
      ensures match ReadBuf(t, scan.text, old(scan.pos), indent, [])
              case Got(fs, q) => r == Ok(fs) && scan.pos == q
              case Bad(e) => r == Err(e)
      decreases |scan.text| - scan.pos, 1
    {
      hide ReadLine;
      var fs: Contents := [];
      ghost var start := scan.pos;
      while true
        invariant scan.Valid() && start <= scan.pos
        invariant ReadBuf(t, scan.text, scan.pos, indent, fs) == ReadBuf(t, scan.text, start, indent, [])
        decreases |scan.text| - scan.pos
      {
        var line := ParseLine(fs, indent);
        if line.Err? {
          return Err(line.error);
        }
        if line.value.None? {
          return Ok(fs);
        }
        fs := line.value.value;
      }
    }
  }

  /** Reads one buffer from the rest of a file; nothing at its end. The symbol of look-ahead
      was taken from the file as well, so the next read starts one byte late. */
  method Extread(t: Tables, text: seq<byte>) returns (r: Result<Option<Contents>, Error>, used: nat)
    ensures text == [] ==> r == Ok(None)
    ensures text != [] ==>
              match ReadBuf(t, text, 0, 0, [])
              case Got(fs, q) => r == Ok(Some(fs)) && used == if q < |text| then q + 1 else q
              case Bad(e) => r == Err(e)
  {
    var reader := new ExtReader(t, text);
    used := 0;
    if reader.scan.Eof() {
      return Ok(None), 0;
    }
    var fs := reader.ParseBuf(0);
    used := if reader.scan.Eof() then reader.scan.pos else reader.scan.pos + 1;
    r := if fs.Ok? then Ok(Some(fs.value)) else Err(fs.error);
  }

  // ---- one escaped byte after the other ----

  /** A byte that reads as it prints. */
  predicate PlainByte(c: byte) { c < 128 && c != BACKSLASH }

  predicate PlainText(s: seq<byte>) { forall i :: 0 <= i < |s| ==> PlainByte(s[i]) }

  predicate Printable(s: seq<byte>) { forall i :: 0 <= i < |s| ==> IsPrint(s[i]) && s[i] != BACKSLASH }

  lemma ShowNext(c: byte, v: seq<byte>)
    ensures ShowBytes([c] + v) == ShowByte(c) + ShowBytes(v)
  {
    assert ([c] + v)[1..] == v;
  }

  lemma HexBack(c: byte)
    ensures HexByte(HexDigit(c / 16), HexDigit(c % 16)) == c
  {
  }

  lemma PlainStep(c: byte, v: seq<byte>)
    requires PlainByte(c)
    ensures Unescape(ShowBytes([c] + v)) == Prefixed([c], Unescape(ShowBytes(v)))
  {
    hide HexByte, HexDigit, ShowBytes;
    var w := ShowBytes(v);
    ShowNext(c, v);
    HexBack(c);
    if IsPrint(c) {
      assert ([c] + w)[1..] == w;
    } else {
      EscapeStep(HexDigit(c / 16), HexDigit(c % 16), w);
    }
  }

  /** A byte from 128 on comes back as seven. */
  function High(c: byte): (s: seq<byte>)
    requires c >= 128
    ensures |s| == 7 && s[0] == 255
  {
    [255, 102, 102, 102, 102, HexDigit(c / 16), HexDigit(c % 16)]
  }

  lemma HighStep(c: byte, v: seq<byte>)
    requires c >= 128
    ensures Unescape(ShowBytes([c] + v)) == Prefixed(High(c), Unescape(ShowBytes(v)))
  {
    hide *;
    var w := ShowBytes(v);
    ShowNext(c, v);
    HighShown(c, w);
    EscapeStep(102, 102, SixAfter(c) + w);
    NoEscape(SixAfter(c), w);
    PrefixedTwice([255], SixAfter(c), Unescape(w));
  }

  /** The digits behind the first two. */
  function SixAfter(c: byte): (d: seq<byte>)
    ensures BACKSLASH !in d
  {
    [102, 102, 102, 102, HexDigit(c / 16), HexDigit(c % 16)]
  }

  lemma HighShown(c: byte, w: seq<byte>)
    requires c >= 128
    ensures ShowByte(c) + w == [BACKSLASH, 102, 102] + (SixAfter(c) + w)
    ensures High(c) == [255] + SixAfter(c) && IsHex(102) && HexByte(102, 102) == 255
  {
  }

  lemma EscapeStep(a: byte, b: byte, rest: seq<byte>)
    requires IsHex(a) && IsHex(b)
    ensures Unescape([BACKSLASH, a, b] + rest) == Prefixed([HexByte(a, b)], Unescape(rest))
  {
    hide HexByte;
    assert ([BACKSLASH, a, b] + rest)[3..] == rest;
  }

  lemma PrefixedTwice(a: seq<byte>, b: seq<byte>, s: Option<seq<byte>>)
    ensures Prefixed(a, Prefixed(b, s)) == Prefixed(a + b, s)
  {
    if s.Some? {
      assert a + (b + s.value) == a + b + s.value;
    }
  }

  /** Bytes without a backslash in front change nothing behind. */
  lemma {:induction false} NoEscape(d: seq<byte>, w: seq<byte>)
    requires BACKSLASH !in d
    ensures Unescape(d + w) == Prefixed(d, Unescape(w))
    decreases |d|
  {
    hide HexByte;
    if d == [] {
      assert d + w == w;
      assert Unescape(w).Some? ==> [] + Unescape(w).value == Unescape(w).value;
    } else {
      assert (d + w)[1..] == d[1..] + w && d == [d[0]] + d[1..];
      NoEscape(d[1..], w);
      if Unescape(w).Some? {
        assert [d[0]] + (d[1..] + Unescape(w).value) == d + Unescape(w).value;
      }
    }
  }

  /** A backslash takes the next two bytes if they are hexadecimal digits, and is lost. */
  lemma SlashStep(v: seq<byte>)
    ensures Unescape(ShowBytes([BACKSLASH] + v)) ==
            if v == [] || !IsHex(v[0]) then Unescape(ShowBytes(v))
            else if |v| < 2 || !IsHex(v[1]) then None
            else Prefixed([HexByte(v[0], v[1])], Unescape(ShowBytes(v[2..])))
  {
    hide HexByte, HexDigit;
    var w := ShowBytes(v);
    var x := [BACKSLASH] + w;
    ShowNext(BACKSLASH, v);
    assert x[1..] == w;
    if v != [] {
      assert w == ShowByte(v[0]) + ShowBytes(v[1..]) && w[0] == ShowByte(v[0])[0];
      if IsHex(v[0]) {
        assert w == [v[0]] + ShowBytes(v[1..]);
        if |v| >= 2 {
          var u, y := ShowBytes(v[1..]), ShowBytes(v[2..]);
          assert v[1..][1..] == v[2..] && u == ShowByte(v[1]) + y && u[0] == ShowByte(v[1])[0];
          assert w[1] == u[0];
          if IsHex(v[1]) {
            assert u == [v[1]] + y;
            ThirdOn(BACKSLASH, v[0], v[1], y);
          }
        }
      }
    }
  }

  lemma ThirdOn(a: byte, b: byte, c: byte, y: seq<byte>)
    ensures ([a] + ([b] + ([c] + y)))[3..] == y
  {
  }

  /** What printed bytes read as never has those bytes further behind. */
  lemma {:induction false} NoHeadStart(v: seq<byte>, y: seq<byte>, r: seq<byte>)
    requires Unescape(ShowBytes(v)) == Some(r) && y != [] && forall i :: 0 <= i < |y| ==> y[i] < 128
    ensures !(y + v <= r)
    decreases |v|
  {
    hide Unescape, ShowBytes, HexByte, HexDigit;
    if v == [] {
      NothingShown();
    } else {
      var c, rest := v[0], v[1..];
      assert v == [c] + rest;
      var inner := Unescape(ShowBytes(rest));
      if PlainByte(c) {
        PlainStep(c, rest);
        NoHeadStart(rest, y[1..] + [c], inner.value);
        HeadStart(y, [c], rest, r, [c], inner.value);
      } else if c >= 128 {
        HighStep(c, rest);
        assert r[0] == 255;
      } else {
        SlashStep(rest);
        if rest == [] || !IsHex(rest[0]) {
          NoHeadStart(rest, y + [c], r);
          assert y + v == y + [c] + rest;
        } else {
          var two := [c, rest[0], rest[1]];
          var deep := Unescape(ShowBytes(rest[2..]));
          NoHeadStart(rest[2..], y[1..] + two, deep.value);
          assert v == two + rest[2..];
          HeadStart(y, two, rest[2..], r, [r[0]], deep.value);
        }
      }
    }
  }

  lemma HeadStart(y: seq<byte>, a: seq<byte>, v: seq<byte>, r: seq<byte>, b: seq<byte>, q: seq<byte>)
    requires y != [] && |b| == 1 && r == b + q
    ensures y + (a + v) <= r ==> y[1..] + a + v <= q
  {
    assert y + (a + v) == [y[0]] + (y[1..] + a + v);
    WithoutFirst(y[0], y[1..] + a + v, b[0], q);
    assert r == [b[0]] + q;
  }

  lemma WithoutFirst(x: byte, u: seq<byte>, z: byte, w: seq<byte>)
    ensures [x] + u <= [z] + w ==> u <= w
  {
    if [x] + u <= [z] + w {
      assert ([x] + u)[1..] == u && ([z] + w)[1..] == w;
    }
  }

  const SIX := [102, 102, 102, 102, 102, 102]

  /** Nor do they read as bytes with six letters f more in front. */
  lemma {:induction false} NoSixMore(v: seq<byte>, r: seq<byte>)
    requires Unescape(ShowBytes(v)) == Some(r)
    ensures !(v + [0] <= SIX + r + [0])
    decreases |v|
  {
    hide Unescape, ShowBytes;
    SixInFront(v, r);
    if |v| >= 6 && v[..6] == SIX {
      var rest := v[6..];
      assert v == SIX + rest;
      SixShown(rest);
      var q := Unescape(ShowBytes(rest)).value;
      NoSixMore(rest, q);
      WithoutSix(rest + [0], SIX + q + [0]);
      assert v + [0] == SIX + (rest + [0]) && SIX + r + [0] == SIX + (SIX + q + [0]);
    }
  }

  lemma SixInFront(v: seq<byte>, r: seq<byte>)
    ensures v + [0] <= SIX + r + [0] ==> |v| >= 6 && v[..6] == SIX
  {
    if v + [0] <= SIX + r + [0] {
      var n := if |v| < 6 then |v| else 0;
      assert (v + [0])[n] == (SIX + r + [0])[n] == SIX[n];
      assert |v| >= 6;
      forall i | 0 <= i < 6 ensures v[i] == SIX[i] {
        assert v[i] == (v + [0])[i] == (SIX + r + [0])[i];
      }
    }
  }

  lemma WithoutSix(u: seq<byte>, w: seq<byte>)
    ensures SIX + u <= SIX + w ==> u <= w
  {
    if SIX + u <= SIX + w {
      assert (SIX + u)[6..] == u && (SIX + w)[6..] == w;
    }
  }

  lemma SixShown(rest: seq<byte>)
    ensures Unescape(ShowBytes(SIX + rest)) == Prefixed(SIX, Unescape(ShowBytes(rest)))
  {
    hide Unescape, ShowBytes;
    var f: seq<byte> := [102];
    var r1 := f + rest;
    var r2 := f + r1;
    var r3 := f + r2;
    var r4 := f + r3;
    var r5 := f + r4;
    PlainStep(102, rest);
    PlainStep(102, r1);
    PlainStep(102, r2);
    PlainStep(102, r3);
    PlainStep(102, r4);
    PlainStep(102, r5);
    assert SIX + rest == f + r5;
    if Unescape(ShowBytes(rest)).Some? {
      var q := Unescape(ShowBytes(rest)).value;
      assert f + (f + (f + (f + (f + (f + q))))) == SIX + q;
    }
  }

  /** Printed bytes read as themselves, as far as their end or a NUL there, only if they are plain. */
  lemma {:induction false} OnlyPlain(s: seq<byte>, r: seq<byte>)
    requires Unescape(ShowBytes(s)) == Some(r) && s + [0] <= r + [0]
    ensures PlainText(s)
    decreases |s|
  {
    hide Unescape, ShowBytes, HexByte, HexDigit;
    if s != [] {
      var c, rest := s[0], s[1..];
      assert s == [c] + rest;
      assert (s + [0])[0] == c && (s + [0])[1..] == rest + [0];
      var inner := Unescape(ShowBytes(rest));
      if PlainByte(c) {
        PlainStep(c, rest);
        assert (r + [0])[1..] == inner.value + [0];
        OnlyPlain(rest, inner.value);
      } else if c >= 128 {
        HighStep(c, rest);
        NoSixMore(rest, inner.value);
        HighIs(c, rest, inner.value);
      } else {
        SlashStep(rest);
        SlashGone(rest, r);
      }
    }
  }

  lemma HighIs(c: byte, rest: seq<byte>, q: seq<byte>)
    requires c >= 128 && [c] + rest + [0] <= High(c) + q + [0]
    ensures rest + [0] <= SIX + q + [0]
  {
    var a, b := [c] + rest + [0], High(c) + q + [0];
    assert a[0] == b[0];
    assert High(255) == [255] + SIX;
    assert a[1..] == rest + [0] && b[1..] == SIX + q + [0];
  }

  lemma SlashGone(rest: seq<byte>, r: seq<byte>)
    requires Unescape(ShowBytes([BACKSLASH] + rest)) == Some(r)
    ensures !([BACKSLASH] + rest + [0] <= r + [0])
  {
    hide Unescape, ShowBytes, HexByte, HexDigit;
    SlashStep(rest);
    if rest == [] || !IsHex(rest[0]) {
      NoHeadStart(rest, [BACKSLASH], r);
      PrefixOf([BACKSLASH] + rest, r);
    } else {
      var two, deep := [rest[0], rest[1]], Unescape(ShowBytes(rest[2..]));
      NoHeadStart(rest[2..], two, deep.value);
      assert [BACKSLASH] + rest == [BACKSLASH] + (two + rest[2..]);
      PrefixOf([BACKSLASH] + rest, r);
      WithoutFirst(BACKSLASH, two + rest[2..], HexByte(rest[0], rest[1]), deep.value);
    }
  }

  lemma PrefixOf(a: seq<byte>, r: seq<byte>)
    ensures a + [0] <= r + [0] ==> a <= r
  {
    if a + [0] <= r + [0] {
      assert (a + [0])[..|a|] == a && (r + [0])[..|a|] == r[..|a|];
    }
  }

  /** Plain bytes are read back. */
  lemma {:induction false} PlainIsRead(s: seq<byte>)
    requires PlainText(s)
    ensures Unescape(ShowBytes(s)) == Some(s)
    decreases |s|
  {
    hide Unescape, ShowBytes, HexByte, HexDigit;
    if s == [] {
      NothingShown();
    } else {
      assert s == [s[0]] + s[1..];
      PlainStep(s[0], s[1..]);
      assert forall i :: 0 <= i < |s| - 1 ==> s[1..][i] == s[i + 1];
      PlainIsRead(s[1..]);
    }
  }

  lemma NothingShown()
    ensures ShowBytes([]) == [] && Unescape([]) == Some([])
  {
  }

  /** Printed bytes are read back if and only if none is a backslash or from 128 on. */
  lemma BytesReadBack(s: seq<byte>)
    ensures Unescape(ShowBytes(s)) == Some(s) <==> PlainText(s)
  {
    hide Unescape, ShowBytes, PlainText;
    if Unescape(ShowBytes(s)) == Some(s) {
      OnlyPlain(s, s);
    }
    if PlainText(s) {
      PlainIsRead(s);
    }
  }

  lemma {:induction false} NoNewline(s: seq<byte>)
    ensures NEWLINE !in ShowBytes(s)
  {
    hide HexDigit;
    if s != [] {
      NoNewline(s[1..]);
    }
  }

  // ---- values ----

  function TypeOf(v: Content): nat {
    match v
    case Short(_) => FLD_SHORT
    case Int(_) => FLD_LONG
    case Char(_) => FLD_CHAR
    case Float(_) => FLD_FLOAT
    case Real(_) => FLD_DOUBLE
    case Chars(_) => FLD_STRING
    case Raw(_) => FLD_CARRAY
    case Nested(_) => FLD_FML32
  }

  /** What a value becomes when its text is read; nothing when the text is refused. */
  function Reread(t: Tables, v: Content): Option<Content> {
    match v
    case Nested(fs) => (match RereadAll(t, fs) case Some(r) => Some(Nested(r)) case None => None)
    case _ =>
      match Unescape(ShowContent(t, v, 0))
      case Some(s) => Some(Convert(t, TypeOf(v), s))
      case None => None
  }

  function RereadAll(t: Tables, fs: Contents): (r: Option<Contents>)
    ensures r.Some? ==> |r.value| == |fs| && forall i :: 0 <= i < |fs| ==> r.value[i].id == fs[i].id
  {
    if fs == [] then Some([])
    else
      match (RereadField(t, fs[0]), RereadAll(t, fs[1..]))
      case (Some(f), Some(rest)) => Some([f] + rest)
      case _ => None
  }

  function RereadField(t: Tables, f: Field<Content>): (r: Option<Field<Content>>)
    ensures r.Some? ==> r.value.id == f.id
  {
    match Reread(t, f.value)
    case Some(v) => Some(Field(f.id, v))
    case None => None
  }

  predicate NamedAlike(t: Tables, id: nat) {
    && ValidId(id) && id in t.names && IsName(t.names[id])
    && t.names[id] in t.ids && t.ids[t.names[id]] == id
  }

  /** The value has the type; the machine prints numbers with printable bytes. */
  ghost predicate CanPrint(t: Tables, type_: nat, v: Content)
    decreases v
  {
    && TypeOf(v) == type_
    && match v
       case Short(n) => -0x8000 <= n < 0x8000
       case Int(n) => IsInt64(n)
       case Float(b) => Printable(t.fixed(b))
       case Real(b) => Printable(t.fixed(b))
       case Chars(s) => 0 !in s
       case Nested(fs) => Sorted(fs) && AllCanPrint(t, fs)
       case _ => true
  }

  ghost predicate AllCanPrint(t: Tables, fs: Contents)
    decreases fs
  {
    fs == [] || (CanPrintField(t, fs[0]) && AllCanPrint(t, fs[1..]))
  }

  ghost predicate CanPrintField(t: Tables, f: Field<Content>)
    decreases f
  {
    NamedAlike(t, f.id) && CanPrint(t, FldType(f.id), f.value)
  }

  lemma NumberIsPrintable(n: int)
    ensures Printable(Text(n))
  {
    var d := Digits(if n < 0 then -n else n);
    assert forall i :: 0 <= i < |d| ==> IsDigit(d[i]);
  }

  lemma NulFreeText(s: seq<byte>)
    requires 0 !in s
    ensures CText(s) == s
  {
    SpanIs(s, 0, |s|, (c: byte) => c != 0);
  }

  lemma PrintableReads(s: seq<byte>)
    requires Printable(s)
    ensures Unescape(s) == Some(s) && NEWLINE !in s && CText(s) == s
  {
    hide Unescape;
    UnescapeShortens(s);
    NulFreeText(s);
  }

  lemma ContentHasNoNewline(t: Tables, type_: nat, v: Content, indent: nat)
    requires CanPrint(t, type_, v) && !v.Nested?
    ensures ShowContent(t, v, indent) == ShowContent(t, v, 0) && NEWLINE !in ShowContent(t, v, 0)
  {
    hide Text, HexDigit, ShowBytes, Unescape;
    match v
    case Short(n) => NumberIsPrintable(n);
    case Int(n) => NumberIsPrintable(n);
    case Chars(s) => NoNewline(s);
    case Raw(s) => NoNewline(s);
    case _ =>
  }

  // ---- lines ----

  lemma TabsAreThere(text: seq<byte>, p: nat, n: nat)
    requires Holds(text, p, Tabs(n))
    ensures TabsAt(text, p, n)
  {
    HoldsAt(text, p, Tabs(n));
  }

  /** A name and a value in a line of their own. */
  lemma PairIsRead(text: seq<byte>, p: nat, name: seq<byte>, w: seq<byte>)
    requires IsName(name) && NEWLINE !in w
    requires Holds(text, p, name + ([TAB] + (w + [NEWLINE])))
    ensures ReadPair(text, p) ==
            match Unescape(w)
            case Some(s) => Got((name, s), p + |name| + |w| + 2)
            case None => Bad(Syntax)
  {
    hide *;
    var a, b, c := p + |name|, p + |name| + 1, p + |name| + 1 + |w|;
    HoldsParts(text, p, name, [TAB] + (w + [NEWLINE]));
    FirstThen(text, a, TAB, w + [NEWLINE]);
    HoldsParts(text, b, w, [NEWLINE]);
    FirstThen(text, c, NEWLINE, []);
    StopsAreNone();
    StretchIsRead(text, b, w, NEWLINE);
    NameBefore(text, p, name);
    PairOf(text, p, name, a, b, c, w);
  }

  lemma FirstThen(text: seq<byte>, p: nat, c: byte, rest: seq<byte>)
    requires Holds(text, p, [c] + rest)
    ensures p < |text| && text[p] == c && At(text, p, c) && Holds(text, p + 1, rest)
  {
    HoldsParts(text, p, [c], rest);
    HoldsAt(text, p, [c]);
  }

  lemma StopsAreNone()
    ensures !IsHex(NEWLINE) && NEWLINE != BACKSLASH
  {
  }

  lemma PairOf(text: seq<byte>, p: nat, name: seq<byte>, a: nat, b: nat, c: nat, w: seq<byte>)
    requires p < |text| && AtAny(text, p, IsAlpha) && !AtAny(text, p, IsFlag)
    requires a == p + |name| && b == a + 1 && c == b + |w|
    requires NameEnd(text, p) == a && text[p..a] == name && At(text, a, TAB) && At(text, c, NEWLINE)
    requires ReadEscaped(text, b, NEWLINE) == match Unescape(w) case Some(s) => Ended(s, c) case None => HalfHex
    ensures ReadPair(text, p) ==
            match Unescape(w)
            case Some(s) => Got((name, s), p + |name| + |w| + 2)
            case None => Bad(Syntax)
  {
    hide ReadEscaped, Unescape, Span, NameEnd, IsAlpha;
  }

  lemma OneByte(text: seq<byte>, p: nat, c: byte)
    requires Holds(text, p, [c])
    ensures At(text, p, c)
  {
    HoldsAt(text, p, [c]);
  }

  lemma NameBefore(text: seq<byte>, p: nat, name: seq<byte>)
    requires IsName(name) && Holds(text, p, name) && At(text, p + |name|, TAB)
    ensures AtAny(text, p, IsAlpha) && NameEnd(text, p) == p + |name| && text[p..p + |name|] == name
    ensures !AtAny(text, p, IsFlag) && text[p] != NEWLINE && text[p] != TAB
  {
    HoldsAt(text, p, name);
    SpanIs(text, p + 1, p + |name|, IsNamePart);
  }

  lemma LineStarts(text: seq<byte>, p: nat, indent: nat, name: seq<byte>)
    requires TabsAt(text, p, indent) && Holds(text, p + indent, name) && IsName(name)
    ensures p < |text| && text[p] != NEWLINE
  {
    HoldsAt(text, p + indent, name);
  }

  /** What a line comes to, once its value is known. */
  function LineFrom(r: Option<Content>, done: Contents, id: nat, q: nat): Line {
    match r
    case Some(v) => Added(Put(done, id, -1, v), q)
    case None => Broken(Syntax)
  }

  /** The line of a field that is not a buffer. */
  lemma LineIsRead(t: Tables, text: seq<byte>, p: nat, indent: nat, f: Field<Content>, done: Contents)
    requires NamedAlike(t, f.id) && CanPrint(t, FldType(f.id), f.value) && !f.value.Nested?
    requires Holds(text, p, ShowLine(t, f, indent))
    ensures p + |ShowLine(t, f, indent)| <= |text|
    ensures ReadLine(t, text, p, indent, done) == LineFrom(Reread(t, f.value), done, f.id, p + |ShowLine(t, f, indent)|)
  {
    hide *;
    LineParts(t, text, p, indent, f);
    NameIs(t, f.id);
    ContentHasNoNewline(t, FldType(f.id), f.value, indent);
    var name, w := t.names[f.id], ShowContent(t, f.value, indent);
    LineStarts(text, p, indent, name);
    PairIsRead(text, p + indent, name, w);
    TypeIsFlat(t, FldType(f.id), f.value);
    LineOf(t, text, p, indent, done, name, Unescape(w), p + |ShowLine(t, f, indent)|);
    FlatRereads(t, f.value, done, f.id, p + |ShowLine(t, f, indent)|);
  }

  lemma FlatRereads(t: Tables, v: Content, done: Contents, id: nat, q: nat)
    requires !v.Nested?
    ensures match Unescape(ShowContent(t, v, 0))
            case Some(s) => LineFrom(Reread(t, v), done, id, q) == Added(Put(done, id, -1, Convert(t, TypeOf(v), s)), q)
            case None => LineFrom(Reread(t, v), done, id, q) == Broken(Syntax)
  {
    hide Unescape, ShowContent, Convert, Put;
  }

  lemma NameIs(t: Tables, id: nat)
    requires NamedAlike(t, id)
    ensures ValidId(id) && id in t.names && IsName(t.names[id]) && t.names[id] in t.ids && t.ids[t.names[id]] == id
    ensures ShowName(t, id) == t.names[id]
  {
  }

  lemma TypeIsFlat(t: Tables, type_: nat, v: Content)
    requires CanPrint(t, type_, v)
    ensures type_ == TypeOf(v) && (type_ == FLD_FML32 <==> v.Nested?)
    ensures v.Nested? ==> Sorted(v.fields) && AllCanPrint(t, v.fields)
  {
  }

  /** The parts of a printed line. */
  lemma LineParts(t: Tables, text: seq<byte>, p: nat, indent: nat, f: Field<Content>)
    requires NamedAlike(t, f.id) && Holds(text, p, ShowLine(t, f, indent))
    ensures f.id in t.names && |ShowLine(t, f, indent)| == indent + |t.names[f.id]| + 2 + |ShowContent(t, f.value, indent)|
    ensures p + |ShowLine(t, f, indent)| <= |text|
    ensures TabsAt(text, p, indent) && Holds(text, p + indent, t.names[f.id])
    ensures Holds(text, p + indent, t.names[f.id] + ([TAB] + (ShowContent(t, f.value, indent) + [NEWLINE])))
  {
    hide Holds, ShowContent, Tabs;
    var name, s := t.names[f.id], ShowContent(t, f.value, indent);
    assert ShowLine(t, f, indent) == Tabs(indent) + (name + ([TAB] + (s + [NEWLINE])));
    HoldsParts(text, p, Tabs(indent), name + ([TAB] + (s + [NEWLINE])));
    HoldsParts(text, p + indent, name, [TAB] + (s + [NEWLINE]));
    TabsAreThere(text, p, indent);
    HoldsLength(text, p, ShowLine(t, f, indent));
  }

  lemma HoldsLength(text: seq<byte>, p: nat, s: seq<byte>)
    requires Holds(text, p, s)
    ensures p + |s| <= |text|
  {
  }

  lemma LineOf(t: Tables, text: seq<byte>, p: nat, indent: nat, done: Contents, name: seq<byte>, s: Option<seq<byte>>, q: nat)
    requires p < |text| && text[p] != NEWLINE && TabsAt(text, p, indent) && p + indent <= |text|
    requires name in t.ids && ValidId(t.ids[name])
    requires ReadPair(text, p + indent) == (match s case Some(b) => Got((name, b), q) case None => Bad(Syntax))
    requires q <= |text|
    ensures s.None? ==> ReadLine(t, text, p, indent, done) == Broken(Syntax)
    ensures s.Some? && FldType(t.ids[name]) != FLD_FML32 ==>
              ReadLine(t, text, p, indent, done) ==
              Added(Put(done, t.ids[name], -1, Convert(t, FldType(t.ids[name]), s.value)), q)
    ensures s.Some? && FldType(t.ids[name]) == FLD_FML32 ==>
              ReadLine(t, text, p, indent, done) == AddNested(ReadBuf(t, text, q, indent + 1, []), done, t.ids[name])
  {
    hide ReadPair, ReadBuf, Put, Convert, ValidId;
  }

  // ---- buffers ----

  /** What reading comes to, once the values of the fields are known. */
  function BufFrom(r: Option<Contents>, done: Contents, q: nat): Read<Contents> {
    match r
    case Some(fs) => Got(Append(done, fs), q)
    case None => Bad(Syntax)
  }

  /** Printed fields, read behind `done`. */
  lemma {:induction false} FieldsAreRead(t: Tables, text: seq<byte>, p: nat, indent: nat, done: Contents, fs: Contents)
    requires AllCanPrint(t, fs)
    requires Holds(text, p, ShowFields(t, fs, indent) + [NEWLINE])
    ensures p + |ShowFields(t, fs, indent)| < |text|
    ensures ReadBuf(t, text, p, indent, done) == BufFrom(RereadAll(t, fs), done, p + |ShowFields(t, fs, indent)| + 1)
    decreases fs
  {
    hide *;
    HoldsParts(text, p, ShowFields(t, fs, indent), [NEWLINE]);
    if fs == [] {
      NoFields(t, text, p, indent, done);
    } else {
      FieldsParts(t, fs, indent);
      var f, rest := fs[0], fs[1..];
      var line, more := ShowLine(t, f, indent), ShowFields(t, rest, indent);
      Regroup3(line, more, [NEWLINE]);
      HoldsParts(text, p, line, more + [NEWLINE]);
      HoldsLength(text, p + |line|, more + [NEWLINE]);
      AnyLineIsRead(t, text, p, indent, done, f);
      BufIs(t, text, p, indent, done);
      var v := Reread(t, f.value);
      if v.Some? {
        FieldsAreRead(t, text, p + |line|, indent, Put(done, f.id, -1, v.value), rest);
      }
      OneMoreField(t, fs, done, p + |line|, p + |line| + |more| + 1);
    }
  }

  /** The first field and then the others. */
  lemma OneMoreField(t: Tables, fs: Contents, done: Contents, q: nat, end: nat)
    requires fs != []
    ensures var f, v := fs[0], Reread(t, fs[0].value);
            && (v.None? ==> BufFrom(RereadAll(t, fs), done, end) == Bad(Syntax) && LineFrom(v, done, f.id, q) == Broken(Syntax))
            && (v.Some? ==>
                  && LineFrom(v, done, f.id, q) == Added(Put(done, f.id, -1, v.value), q)
                  && BufFrom(RereadAll(t, fs), done, end) ==
                     BufFrom(RereadAll(t, fs[1..]), Put(done, f.id, -1, v.value), end))
  {
    hide Reread, Append, Put;
    var f, v, rest := fs[0], Reread(t, fs[0].value), RereadAll(t, fs[1..]);
    if v.Some? && rest.Some? {
      AppendFirst(done, Field(f.id, v.value), rest.value);
    }
  }

  lemma {:induction false} AppendFirst(done: Contents, f: Field<Content>, rest: Contents)
    ensures Append(done, [f] + rest) == Append(Put(done, f.id, -1, f.value), rest)
    decreases |rest|
  {
    hide Put;
    var all := [f] + rest;
    if rest == [] {
      assert all[..0] == [];
    } else {
      var n := |rest| - 1;
      assert all[..|all| - 1] == [f] + rest[..n];
      AppendFirst(done, f, rest[..n]);
    }
  }

  /** Sorted fields added one by one to an empty buffer are those fields. */
  lemma {:induction false} AppendToNone(fs: Contents)
    requires Sorted(fs)
    ensures Append([], fs) == fs
    decreases |fs|
  {
    hide Put, Sorted;
    if fs != [] {
      var n := |fs| - 1;
      SortedParts(fs, n);
      AppendToNone(fs[..n]);
      SortedIsOrdered(fs);
      PutLast(fs[..n], fs[n].id, fs[n].value);
      assert fs == fs[..n] + [fs[n]];
    }
  }

  lemma RereadSorted(t: Tables, fs: Contents)
    requires Sorted(fs)
    ensures match RereadAll(t, fs)
            case Some(r) => Sorted(r) && Append([], r) == r
            case None => true
  {
    hide RereadAll, Sorted, Append;
    var r := RereadAll(t, fs);
    if r.Some? {
      SortedIsOrdered(fs);
      SortedIsOrdered(r.value);
      AppendToNone(r.value);
    }
  }

  lemma {:induction false} AnyLineIsRead(t: Tables, text: seq<byte>, p: nat, indent: nat, done: Contents, f: Field<Content>)
    requires NamedAlike(t, f.id) && CanPrint(t, FldType(f.id), f.value)
    requires Holds(text, p, ShowLine(t, f, indent))
    ensures p + |ShowLine(t, f, indent)| <= |text|
    ensures ReadLine(t, text, p, indent, done) == LineFrom(Reread(t, f.value), done, f.id, p + |ShowLine(t, f, indent)|)
    decreases f
  {
    hide *;
    TypeIsFlat(t, FldType(f.id), f.value);
    if f.value.Nested? {
      NestedParts(t, text, p, indent, f);
      NestedFieldsAreRead(t, text, p + indent + |t.names[f.id]| + 2, indent + 1, f.value);
      NestedIsRead(t, text, p, indent, f, done);
    } else {
      LineIsRead(t, text, p, indent, f, done);
    }
  }

  lemma {:induction false} NestedFieldsAreRead(t: Tables, text: seq<byte>, p: nat, indent: nat, v: Content)
    requires v.Nested? && Sorted(v.fields) && AllCanPrint(t, v.fields)
    requires Holds(text, p, ShowFields(t, v.fields, indent) + [NEWLINE])
    ensures p + |ShowFields(t, v.fields, indent)| < |text|
    ensures ReadBuf(t, text, p, indent, []) ==
            BufFrom(RereadAll(t, v.fields), [], p + |ShowFields(t, v.fields, indent)| + 1)
    decreases v
  {
    hide *;
    FieldsAreRead(t, text, p, indent, [], v.fields);
  }

  lemma NoFields(t: Tables, text: seq<byte>, p: nat, indent: nat, done: Contents)
    requires Holds(text, p + |ShowFields(t, [], indent)|, [NEWLINE])
    ensures ShowFields(t, [], indent) == [] && p < |text|
    ensures ReadBuf(t, text, p, indent, done) == BufFrom(RereadAll(t, []), done, p + 1)
  {
    OneByte(text, p, NEWLINE);
  }

  lemma FieldsParts(t: Tables, fs: Contents, indent: nat)
    requires fs != [] && AllCanPrint(t, fs)
    ensures ShowFields(t, fs, indent) == ShowLine(t, fs[0], indent) + ShowFields(t, fs[1..], indent)
    ensures NamedAlike(t, fs[0].id) && CanPrint(t, FldType(fs[0].id), fs[0].value) && AllCanPrint(t, fs[1..])
  {
  }

  /** The parts of the line of a nested buffer with the lines that follow it. */
  lemma NestedParts(t: Tables, text: seq<byte>, p: nat, indent: nat, f: Field<Content>)
    requires NamedAlike(t, f.id) && f.value.Nested? && Holds(text, p, ShowLine(t, f, indent))
    ensures f.id in t.names
    ensures Holds(text, p + indent + |t.names[f.id]| + 2, ShowFields(t, f.value.fields, indent + 1) + [NEWLINE])
    ensures Holds(text, p + indent, t.names[f.id] + ([TAB] + ([] + [NEWLINE])))
    ensures |ShowLine(t, f, indent)| == indent + |t.names[f.id]| + 3 + |ShowFields(t, f.value.fields, indent + 1)|
  {
    hide Holds, ShowFields, TabsAt;
    LineParts(t, text, p, indent, f);
    var name, s := t.names[f.id], ShowFields(t, f.value.fields, indent + 1);
    assert name + ([TAB] + (([NEWLINE] + s) + [NEWLINE])) == name + ([TAB] + ([] + [NEWLINE])) + (s + [NEWLINE]);
    HoldsParts(text, p + indent, name + ([TAB] + ([] + [NEWLINE])), s + [NEWLINE]);
  }

  lemma NestedIsRead(t: Tables, text: seq<byte>, p: nat, indent: nat, f: Field<Content>, done: Contents)
    requires NamedAlike(t, f.id) && FldType(f.id) == FLD_FML32 && f.value.Nested? && Sorted(f.value.fields)
    requires Holds(text, p, ShowLine(t, f, indent)) && f.id in t.names
    requires p + |ShowLine(t, f, indent)| <= |text|
    requires p + indent + |t.names[f.id]| + 2 <= |text|
    requires ReadBuf(t, text, p + indent + |t.names[f.id]| + 2, indent + 1, []) ==
             BufFrom(RereadAll(t, f.value.fields), [], p + |ShowLine(t, f, indent)|)
    ensures ReadLine(t, text, p, indent, done) == LineFrom(Reread(t, f.value), done, f.id, p + |ShowLine(t, f, indent)|)
  {
    hide *;
    NestedParts(t, text, p, indent, f);
    LineParts(t, text, p, indent, f);
    NameIs(t, f.id);
    var name := t.names[f.id];
    LineStarts(text, p, indent, name);
    NothingShown();
    PairIsRead(text, p + indent, name, []);
    LineOf(t, text, p, indent, done, name, Some([]), p + indent + |name| + 2);
    RereadSorted(t, f.value.fields);
    NestedRereads(t, f.value, done, f.id, p + |ShowLine(t, f, indent)|);
  }

  lemma NestedRereads(t: Tables, v: Content, done: Contents, id: nat, q: nat)
    requires v.Nested?
    requires match RereadAll(t, v.fields) case Some(r) => Append([], r) == r case None => true
    ensures AddNested(BufFrom(RereadAll(t, v.fields), [], q), done, id) == LineFrom(Reread(t, v), done, id, q)
  {
    hide Put, Append, RereadAll;
  }

  lemma BufIs(t: Tables, text: seq<byte>, p: nat, indent: nat, fs: Contents)
    requires p <= |text|
    ensures ReadBuf(t, text, p, indent, fs) ==
            match ReadLine(t, text, p, indent, fs)
            case Blank(q) => Got(fs, q)
            case Broken(e) => Bad(e)
            case Added(more, q) => ReadBuf(t, text, q, indent, more)
  {
  }

  /** Printing a buffer and reading the text gives every field, at every depth, with what its text
      stands for, or is refused when the text of some value is. */
  lemma PrintedIsRead(t: Tables, fs: Contents, behind: seq<byte>)
    requires AllCanPrint(t, fs) && Sorted(fs)
    ensures var shown := ShowFields(t, fs, 0) + [NEWLINE];
            ReadBuf(t, shown + behind, 0, 0, []) ==
            match RereadAll(t, fs)
            case Some(r) => Got(r, |shown|)
            case None => Bad(Syntax)
  {
    hide *;
    var shown := ShowFields(t, fs, 0) + [NEWLINE];
    HoldsWhole(shown, behind);
    RereadSorted(t, fs);
    FieldsAreRead(t, shown + behind, 0, 0, [], fs);
    BufFromIs(RereadAll(t, fs), |shown|);
  }

  lemma BufFromIs(r: Option<Contents>, q: nat)
    ensures BufFrom(r, [], q) == match r case Some(fs) => Got(Append([], fs), q) case None => Bad(Syntax)
  {
  }

  // ---- which buffers their text stands for ----

  /** A value that its own text stands for. */
  predicate Faithful(t: Tables, v: Content) {
    match v
    case Char(c) => PlainByte(c) || c == 255
    case Float(b) => t.single(t.fixed(b)) == b
    case Real(b) => t.double(t.fixed(b)) == b
    case Chars(s) => PlainText(s)
    case Raw(s) => PlainText(s) && s != [] && s[|s| - 1] == 0 && 0 !in s[..|s| - 1]
    case Nested(fs) => AllFaithful(t, fs)
    case _ => true
  }

  predicate FaithfulField(t: Tables, f: Field<Content>) { Faithful(t, f.value) }

  predicate AllFaithful(t: Tables, fs: Contents) {
    fs == [] || (FaithfulField(t, fs[0]) && AllFaithful(t, fs[1..]))
  }

  lemma NumberIsSame(n: int)
    requires IsInt64(n)
    ensures Unescape(Text(n)) == Some(Text(n)) && CText(Text(n)) == Text(n)
    ensures LongOf(Text(n)) == n && (-0x8000 <= n < 0x8000 ==> ToShort(n) == n)
  {
    NumberIsPrintable(n);
    PrintableReads(Text(n));
    AtolOfText(n);
  }

  lemma CharIsSame(t: Tables, c: byte)
    ensures Reread(t, Char(c)) == Some(Char(c)) <==> PlainByte(c) || c == 255
  {
    hide Unescape, ShowByte, HexByte, HexDigit;
    assert [c] + [] == [c] && [c][1..] == [];
    assert ShowBytes([c]) == ShowByte(c) + ShowBytes([]) == ShowByte(c);
    NothingShown();
    if PlainByte(c) {
      PlainStep(c, []);
      FirstOfText([c]);
    } else if c >= 128 {
      HighStep(c, []);
      assert High(c) + [] == High(c);
      FirstOfText(High(c));
    } else {
      SlashStep([]);
      FirstOfText([]);
    }
  }

  lemma FirstOfText(s: seq<byte>)
    ensures (if CText(s) == [] then 0 else CText(s)[0]) == if s == [] then 0 else s[0]
  {
  }

  /** A text cut at its first NUL is what was printed only if the bytes are plain. */
  lemma CutReadBack(s: seq<byte>)
    requires 0 !in s
    ensures (match Unescape(ShowBytes(s)) case Some(r) => CText(r) == s case None => false) <==> PlainText(s)
  {
    hide Unescape, ShowBytes, PlainText;
    var r := Unescape(ShowBytes(s));
    if r.Some? && CText(r.value) == s {
      CutIsPrefix(r.value);
      OnlyPlain(s, r.value);
    }
    if PlainText(s) {
      PlainIsRead(s);
      NulFreeText(s);
    }
  }

  lemma CutIsPrefix(r: seq<byte>)
    ensures CText(r) + [0] <= r + [0]
  {
    var s := CText(r);
    if |s| < |r| {
      assert r == s + [0] + r[|s| + 1..];
    }
  }

  /** A NUL at the end is read as one, whatever stands in front. */
  lemma {:induction false} NulBehind(w: seq<byte>)
    ensures Unescape(w + [BACKSLASH, 48, 48]) == match Unescape(w) case Some(s) => Some(s + [0]) case None => None
    decreases |w|
  {
    var z: seq<byte> := [BACKSLASH, 48, 48];
    var x := w + z;
    if w == [] {
      assert x == z && z[3..] == [];
      assert HexByte(48, 48) == 0;
      assert [0] + [] == [0] && [] + [0] == [0];
    } else if w[0] == BACKSLASH && |w| >= 3 && IsHex(w[1]) && IsHex(w[2]) {
      assert x[3..] == w[3..] + z;
      NulBehind(w[3..]);
      NulAfter([HexByte(w[1], w[2])], Unescape(w[3..]));
    } else {
      assert x[1..] == w[1..] + z;
      NulBehind(w[1..]);
      NulAfter([w[0]], Unescape(w[1..]));
    }
  }

  lemma NulAfter(a: seq<byte>, s: Option<seq<byte>>)
    ensures s.Some? ==> a + (s.value + [0]) == a + s.value + [0]
  {
  }

  lemma RawIsSame(t: Tables, s: seq<byte>)
    ensures Reread(t, Raw(s)) == Some(Raw(s)) <==> Faithful(t, Raw(s))
  {
    hide Unescape, ShowBytes, PlainText, CText;
    var r := Unescape(ShowBytes(s));
    if s == [] || s[|s| - 1] != 0 || 0 in s[..|s| - 1] {
      NotCut(s, r);
    } else {
      var a := s[..|s| - 1];
      assert s == a + [0];
      ShowLast(a);
      NulBehind(ShowBytes(a));
      CutReadBack(a);
      PlainLast(a);
      if Unescape(ShowBytes(a)).Some? {
        CutLast(Unescape(ShowBytes(a)).value);
        assert CText(Unescape(ShowBytes(a)).value) + [0] == a + [0] ==> CText(Unescape(ShowBytes(a)).value) == a by {
          SameFront(CText(Unescape(ShowBytes(a)).value), a);
        }
      }
    }
  }

  lemma SameFront(a: seq<byte>, b: seq<byte>)
    ensures a + [0] == b + [0] ==> a == b
  {
    assert (a + [0])[..|a + [0]| - 1] == a && (b + [0])[..|b + [0]| - 1] == b;
  }

  lemma NotCut(s: seq<byte>, r: Option<seq<byte>>)
    requires s == [] || s[|s| - 1] != 0 || 0 in s[..|s| - 1]
    ensures r.Some? ==> CText(r.value) + [0] != s
  {
    if r.Some? {
      CutEnds(CText(r.value));
    }
  }

  lemma CutEnds(a: seq<byte>)
    requires 0 !in a
    ensures var s := a + [0]; s[|s| - 1] == 0 && 0 !in s[..|s| - 1]
  {
    assert (a + [0])[..|a + [0]| - 1] == a;
  }

  lemma CutLast(r: seq<byte>)
    ensures CText(r + [0]) == CText(r)
  {
    var n := |CText(r)|;
    var x := r + [0];
    assert forall i :: 0 <= i < n ==> x[i] == r[i] == CText(r)[i];
    assert x[n] == 0;
    SpanIs(x, 0, n, (c: byte) => c != 0);
    assert x[..n] == r[..n];
  }

  lemma PlainLast(a: seq<byte>)
    ensures PlainText(a + [0]) <==> PlainText(a)
  {
    assert forall i :: 0 <= i < |a| ==> (a + [0])[i] == a[i];
  }

  lemma {:induction false} ShowLast(a: seq<byte>)
    ensures ShowBytes(a + [0]) == ShowBytes(a) + [BACKSLASH, 48, 48]
    decreases |a|
  {
    hide ShowByte;
    var x := a + [0];
    if a == [] {
      assert x[1..] == [];
      assert ShowByte(0) == [BACKSLASH, 48, 48] by { ShowNul(); }
    } else {
      assert x[1..] == a[1..] + [0] && x[0] == a[0];
      ShowLast(a[1..]);
    }
  }

  lemma ShowNul()
    ensures ShowByte(0) == [BACKSLASH, 48, 48]
  {
  }

  lemma {:induction false} ContentIsSame(t: Tables, type_: nat, v: Content)
    requires CanPrint(t, type_, v)
    ensures Reread(t, v) == Some(v) <==> Faithful(t, v)
    decreases v
  {
    hide Unescape, ShowBytes, ShowByte, CText, PlainText, Text, LongOf, ToShort;
    match v
    case Short(n) => NumberIsSame(n);
    case Int(n) => NumberIsSame(n);
    case Char(c) => CharIsSame(t, c);
    case Float(b) => PrintableReads(t.fixed(b));
    case Real(b) => PrintableReads(t.fixed(b));
    case Chars(s) => CutReadBack(s);
    case Raw(s) => RawIsSame(t, s);
    case Nested(fs) => FieldsAreSame(t, fs);
  }

  lemma {:induction false} FieldIsSame(t: Tables, f: Field<Content>)
    requires CanPrintField(t, f)
    ensures RereadField(t, f) == Some(f) <==> FaithfulField(t, f)
    decreases f
  {
    hide Reread, Faithful, CanPrint;
    ContentIsSame(t, FldType(f.id), f.value);
  }

  lemma {:induction false} FieldsAreSame(t: Tables, fs: Contents)
    requires AllCanPrint(t, fs)
    ensures RereadAll(t, fs) == Some(fs) <==> AllFaithful(t, fs)
    decreases fs
  {
    hide RereadField, FaithfulField, CanPrintField;
    if fs != [] {
      var f, rest := fs[0], fs[1..];
      FieldIsSame(t, f);
      FieldsAreSame(t, rest);
      assert fs == [f] + rest;
      var g, more := RereadField(t, f), RereadAll(t, rest);
      if g.Some? && more.Some? {
        assert ([g.value] + more.value)[0] == g.value && ([g.value] + more.value)[1..] == more.value;
      }
    }
  }

  /** The text of a buffer is read as that buffer exactly when every value in it is faithful. */
  lemma RoundTrip(t: Tables, fs: Contents, behind: seq<byte>)
    requires AllCanPrint(t, fs) && Sorted(fs)
    ensures var shown := ShowFields(t, fs, 0) + [NEWLINE];
            ReadBuf(t, shown + behind, 0, 0, []) == Got(fs, |shown|) <==> AllFaithful(t, fs)
  {
    hide *;
    PrintedIsRead(t, fs, behind);
    FieldsAreSame(t, fs);
  }

  /** A string of one backslash is read as an empty one, one that a half escape makes is refused,
      and a byte from 128 on becomes seven. */
  lemma UnfaithfulStrings(t: Tables)
    ensures Reread(t, Chars([BACKSLASH])) == Some(Chars([]))
    ensures Reread(t, Chars([BACKSLASH, 97])) == None
    ensures Reread(t, Chars([200])) == Some(Chars([255, 102, 102, 102, 102, 99, 56]))
  {
    hide Unescape;
    NothingShown();
    assert [BACKSLASH] + [] == [BACKSLASH] && [BACKSLASH] + [97] == [BACKSLASH, 97] && [200] + [] == [200];
    SlashStep([]);
    SlashStep([97]);
    HighStep(200, []);
    assert High(200) + [] == [255, 102, 102, 102, 102, 99, 56];
    NulFreeText([]);
    NulFreeText(High(200));
  }

  // ---- two buffers in one file ----

  /** No two names stand for the same field. */
  ghost predicate OneNameEach(t: Tables) {
    forall m, n :: m in t.ids && n in t.ids && t.ids[m] == t.ids[n] ==> m == n
  }

  /** The name of a field without its first letter. */
  function ShortName(t: Tables, id: nat): seq<byte> {
    if id in t.names && t.names[id] != [] then t.names[id][1..] else []
  }

  /** The text of the second buffer as the reader finds it: without its first byte. */
  function Late(t: Tables, fs: Contents): seq<byte> { (ShowFields(t, fs, 0) + [NEWLINE])[1..] }

  lemma {:induction false} CountSame(fs: Contents, gs: Contents, id: nat)
    requires |fs| == |gs| && forall i :: 0 <= i < |fs| ==> fs[i].id == gs[i].id
    ensures |Values(fs, id)| == |Values(gs, id)|
  {
    if fs != [] {
      CountSame(fs[..|fs| - 1], gs[..|gs| - 1], id);
    }
  }

  /** With another field in place of the first one the buffer is another one. */
  lemma FirstIsOther(t: Tables, fs: Contents, g: Field<Content>)
    requires fs != [] && g.id != fs[0].id
    ensures match RereadAll(t, fs[1..]) case Some(r) => Append([g], r) != fs case None => true
  {
    var id, rest, r := fs[0].id, fs[1..], RereadAll(t, fs[1..]);
    if r.Some? {
      hide *;
      assert fs == [fs[0]] + rest;
      ValuesConcat([fs[0]], rest, id);
      ValuesOne(fs[0], id);
      ValuesOne(g, id);
      OneIsSorted(g);
      AppendValues([g], r.value);
      CountSame(r.value, rest, id);
      assert Values(Append([g], r.value), id) == Values([g], id) + Values(r.value, id);
    }
  }

  lemma OneIsSorted(g: Field<Content>)
    ensures Sorted([g]) && forall v: Content :: Put<Content>([], g.id, -1, v) == [Field(g.id, v)]
  {
    forall v: Content ensures Put<Content>([], g.id, -1, v) == [Field(g.id, v)] {
      PutLast<Content>([], g.id, v);
    }
  }

  /** A line of which the first letter is gone: refused, or a field of another name. */
  lemma LateLine(t: Tables, fs: Contents)
    requires fs != [] && AllCanPrint(t, fs) && OneNameEach(t)
    ensures fs[0].id in t.names && t.names[fs[0].id] != []
    ensures var name, text := t.names[fs[0].id][1..], Late(t, fs);
            || ReadLine(t, text, 0, 0, []).Broken?
            || (name in t.ids && t.ids[name] != fs[0].id && ValidId(t.ids[name]) && IsName(name))
  {
    hide ShowContent, Convert, ReadEscaped, Span, ReadBuf, Put, ShowFields;
    var f := fs[0];
    FieldsParts(t, fs, 0);
    NameIs(t, f.id);
    var full := t.names[f.id];
    var name, w := full[1..], ShowContent(t, f.value, 0) + [NEWLINE] + ShowFields(t, fs[1..], 0) + [NEWLINE];
    LateParts(t, fs);
    var text := Late(t, fs);
    assert text == name + ([TAB] + w);
    if IsName(name) {
      HoldsWhole(name, [TAB] + w);
      assert text[|name|] == TAB;
      NameBefore(text, 0, name);
      assert full != name;
    } else {
      NotAName(full, text, w);
    }
  }

  lemma NotAName(full: seq<byte>, text: seq<byte>, w: seq<byte>)
    requires IsName(full) && !IsName(full[1..]) && text == full[1..] + ([TAB] + w)
    ensures text[0] != NEWLINE && !AtAny(text, 0, IsFlag) && !AtAny(text, 0, IsAlpha)
  {
    var name := full[1..];
    if name == [] {
      assert text[0] == TAB;
    } else {
      assert text[0] == name[0] == full[1];
      assert forall i :: 0 < i < |name| ==> name[i] == full[i + 1];
    }
  }

  lemma LateParts(t: Tables, fs: Contents)
    requires fs != [] && AllCanPrint(t, fs)
    ensures NamedAlike(t, fs[0].id)
    ensures Late(t, fs) == t.names[fs[0].id][1..] + ([TAB] + (ShowContent(t, fs[0].value, 0) + [NEWLINE] + ShowFields(t, fs[1..], 0) + [NEWLINE]))
  {
    hide ShowContent, ShowName;
    FieldsParts(t, fs, 0);
    NameIs(t, fs[0].id);
    var name, s, rest := t.names[fs[0].id], ShowContent(t, fs[0].value, 0), ShowFields(t, fs[1..], 0);
    assert Tabs(0) == [];
    assert ShowLine(t, fs[0], 0) == name + [TAB] + s + [NEWLINE];
    var all := name + [TAB] + s + [NEWLINE] + rest + [NEWLINE];
    assert all == name + ([TAB] + (s + [NEWLINE] + rest + [NEWLINE]));
    assert (name + ([TAB] + (s + [NEWLINE] + rest + [NEWLINE])))[1..] == name[1..] + ([TAB] + (s + [NEWLINE] + rest + [NEWLINE]));
  }

  /** The other lines, behind one field that was read already. */
  lemma OthersAfter(t: Tables, text: seq<byte>, q: nat, fs: Contents, g: Field<Content>)
    requires fs != [] && AllCanPrint(t, fs) && g.id != fs[0].id
    requires Holds(text, q, ShowFields(t, fs[1..], 0) + [NEWLINE])
    ensures var r := ReadBuf(t, text, q, 0, [g]); r.Got? ==> r.value != fs
  {
    hide *;
    FieldsParts(t, fs, 0);
    FieldsAreRead(t, text, q, 0, [g], fs[1..]);
    FirstIsOther(t, fs, g);
    BufFromOne(RereadAll(t, fs[1..]), g, q + |ShowFields(t, fs[1..], 0)| + 1);
  }

  lemma BufFromOne(r: Option<Contents>, g: Field<Content>, q: nat)
    ensures BufFrom(r, [g], q) == match r case Some(fs) => Got(Append([g], fs), q) case None => Bad(Syntax)
  {
  }

  /** A buffer without its first byte is refused or read as another one. */
  lemma LateIsOther(t: Tables, fs: Contents)
    requires fs != [] && AllCanPrint(t, fs) && OneNameEach(t)
    ensures var r := ReadBuf(t, Late(t, fs), 0, 0, []); r.Got? ==> r.value != fs
    ensures NamedAlike(t, fs[0].id)
    ensures ShortName(t, fs[0].id) !in t.ids ==> ReadBuf(t, Late(t, fs), 0, 0, []).Bad?
  {
    hide *;
    var text, f := Late(t, fs), fs[0];
    BufIs(t, text, 0, 0, []);
    LateLine(t, fs);
    LateParts(t, fs);
    FieldsParts(t, fs, 0);
    ShortNameIs(t, f.id);
    if !ReadLine(t, text, 0, 0, []).Broken? {
      var name := t.names[f.id][1..];
      if f.value.Nested? {
        LateNested(t, fs, name);
      } else {
        LateFlat(t, fs, name);
      }
    }
  }

  lemma ShortNameIs(t: Tables, id: nat)
    requires id in t.names && t.names[id] != []
    ensures ShortName(t, id) == t.names[id][1..]
  {
  }

  lemma LateFlat(t: Tables, fs: Contents, name: seq<byte>)
    requires fs != [] && AllCanPrint(t, fs) && !fs[0].value.Nested?
    requires fs[0].id in t.names && t.names[fs[0].id] != [] && name == t.names[fs[0].id][1..] && IsName(name)
    requires name in t.ids && t.ids[name] != fs[0].id && ValidId(t.ids[name])
    ensures var r := ReadBuf(t, Late(t, fs), 0, 0, []); r.Got? ==> r.value != fs
  {
    hide *;
    var text, f := Late(t, fs), fs[0];
    var id, w, more := t.ids[name], ShowContent(t, f.value, 0), ShowFields(t, fs[1..], 0) + [NEWLINE];
    FieldsParts(t, fs, 0);
    LateParts(t, fs);
    ContentHasNoNewline(t, FldType(f.id), f.value, 0);
    var q := |name| + |w| + 2;
    LateHolds(text, name, w, ShowFields(t, fs[1..], 0));
    PairIsRead(text, 0, name, w);
    LineOf(t, text, 0, 0, [], name, Unescape(w), q);
    BufIs(t, text, 0, 0, []);
    if Unescape(w).Some? {
      if FldType(id) == FLD_FML32 {
        NothingNested(t, text, q, fs[1..]);
        AddNestedIs(ReadBuf(t, text, q, 1, []), id);
        if ReadBuf(t, text, q, 1, []).Got? {
          AtEndOfText(t, text, ReadBuf(t, text, q, 1, []).end, Put([], id, -1, Nested(ReadBuf(t, text, q, 1, []).value)));
        }
      } else {
        var v := Convert(t, FldType(id), Unescape(w).value);
        OneIsSorted(Field(id, v));
        OthersAfter(t, text, q, fs, Field(id, v));
      }
    }
  }

  lemma AddNestedIs(r: Read<Contents>, id: nat)
    ensures AddNested(r, [], id) ==
            match r
            case Bad(e) => Broken(e)
            case Got(nested, q) => Added(Put([], id, -1, Nested(nested)), q)
  {
  }

  lemma LateHolds(text: seq<byte>, name: seq<byte>, w: seq<byte>, more: seq<byte>)
    requires text == name + ([TAB] + (w + [NEWLINE] + more + [NEWLINE])) && IsName(name)
    ensures Holds(text, 0, name + ([TAB] + (w + [NEWLINE]))) && Holds(text, |name| + |w| + 2, more + [NEWLINE])
    ensures |text| == |name| + |w| + 3 + |more| && text[0] != NEWLINE && TabsAt(text, 0, 0)
  {
    var a := name + ([TAB] + (w + [NEWLINE]));
    assert text == a + (more + [NEWLINE]);
    assert text[0] == name[0];
  }

  /** Lines that are not indented are no lines of a nested buffer; none at all ends it. */
  lemma NothingNested(t: Tables, text: seq<byte>, q: nat, fs: Contents)
    requires AllCanPrint(t, fs) && Holds(text, q, ShowFields(t, fs, 0) + [NEWLINE])
    requires |text| == q + |ShowFields(t, fs, 0)| + 1
    ensures var r := ReadBuf(t, text, q, 1, []); r.Got? ==> r.end == |text|
  {
    hide ShowContent, ReadPair, ShowName;
    HoldsAt(text, q, ShowFields(t, fs, 0) + [NEWLINE]);
    if fs == [] {
      assert text[q] == NEWLINE;
    } else {
      FieldsParts(t, fs, 0);
      NameIs(t, fs[0].id);
      assert Tabs(0) == [];
      assert ShowLine(t, fs[0], 0)[0] == t.names[fs[0].id][0];
      assert text[q] == t.names[fs[0].id][0];
    }
  }

  lemma AtEndOfText(t: Tables, text: seq<byte>, q: nat, done: Contents)
    requires q == |text|
    ensures ReadBuf(t, text, q, 0, done).Bad?
  {
  }

  lemma LateNested(t: Tables, fs: Contents, name: seq<byte>)
    requires fs != [] && AllCanPrint(t, fs) && fs[0].value.Nested?
    requires fs[0].id in t.names && t.names[fs[0].id] != [] && name == t.names[fs[0].id][1..] && IsName(name)
    requires name in t.ids && t.ids[name] != fs[0].id && ValidId(t.ids[name])
    ensures var r := ReadBuf(t, Late(t, fs), 0, 0, []); r.Got? ==> r.value != fs
  {
    hide *;
    var text, f := Late(t, fs), fs[0];
    var id, inner := t.ids[name], f.value.fields;
    FieldsParts(t, fs, 0);
    LateParts(t, fs);
    TypeIsFlat(t, FldType(f.id), f.value);
    var shown := ShowFields(t, inner, 1);
    NestedShows(t, f.value);
    var q := |name| + 2;
    LateNestedHolds(text, name, shown, ShowFields(t, fs[1..], 0));
    NothingShown();
    PairIsRead(text, 0, name, []);
    LineOf(t, text, 0, 0, [], name, Some([]), q);
    BufIs(t, text, 0, 0, []);
    if FldType(id) == FLD_FML32 {
      NestedFieldsAreRead(t, text, q, 1, f.value);
      AddNestedIs(ReadBuf(t, text, q, 1, []), id);
      BufFromIs(RereadAll(t, inner), q + |shown| + 1);
      if RereadAll(t, inner).Some? {
        var v := Nested(Append([], RereadAll(t, inner).value));
        OneIsSorted(Field(id, v));
        OthersAfter(t, text, q + |shown| + 1, fs, Field(id, v));
      }
    } else {
      var v := Convert(t, FldType(id), []);
      OneIsSorted(Field(id, v));
      IndentedIsRefused(t, text, q, inner, Field(id, v));
      OneIsOther(Field(id, v), fs);
    }
  }

  lemma OneIsOther(g: Field<Content>, fs: Contents)
    requires fs != [] && g.id != fs[0].id
    ensures [g] != fs
  {
    assert [g][0] != fs[0];
  }

  lemma NestedShows(t: Tables, v: Content)
    requires v.Nested?
    ensures ShowContent(t, v, 0) == [NEWLINE] + ShowFields(t, v.fields, 1)
  {
  }

  lemma LateNestedHolds(text: seq<byte>, name: seq<byte>, shown: seq<byte>, more: seq<byte>)
    requires text == name + ([TAB] + (([NEWLINE] + shown) + [NEWLINE] + more + [NEWLINE])) && IsName(name)
    ensures Holds(text, 0, name + ([TAB] + ([] + [NEWLINE]))) && Holds(text, |name| + 2, shown + [NEWLINE])
    ensures Holds(text, |name| + 2 + |shown| + 1, more + [NEWLINE])
    ensures |text| == |name| + |shown| + |more| + 4 && text[0] != NEWLINE && TabsAt(text, 0, 0)
  {
    var a := name + ([TAB] + ([] + [NEWLINE]));
    assert text == a + (shown + [NEWLINE]) + (more + [NEWLINE]);
    assert text[0] == name[0];
  }

  /** Lines of a nested buffer are refused where no buffer is nested; none at all end the buffer. */
  lemma IndentedIsRefused(t: Tables, text: seq<byte>, q: nat, inner: Contents, g: Field<Content>)
    requires Holds(text, q, ShowFields(t, inner, 1) + [NEWLINE]) && AllCanPrint(t, inner)
    ensures var r := ReadBuf(t, text, q, 0, [g]); r.Got? ==> r.value == [g]
  {
    hide ShowContent, ShowName;
    HoldsAt(text, q, ShowFields(t, inner, 1) + [NEWLINE]);
    if inner == [] {
      assert text[q] == NEWLINE;
    } else {
      FieldsParts(t, inner, 1);
      assert Tabs(1)[0] == TAB;
      assert ShowLine(t, inner[0], 1)[0] == TAB;
      assert text[q] == TAB;
    }
  }

  /** Two buffers printed into one file and read one after the other: the first comes back as the
      round trip says, the second one never does. An empty one is not even noticed, another one is
      refused if its first name without the first letter is no name. */
  method ReadTwo(t: Tables, text: seq<byte>, ghost a: Contents, ghost b: Contents)
    returns (first: Result<Option<Contents>, Error>, second: Result<Option<Contents>, Error>)
    requires AllCanPrint(t, a) && Sorted(a) && AllCanPrint(t, b) && Sorted(b) && OneNameEach(t)
    requires text == ShowFields(t, a, 0) + [NEWLINE] + (ShowFields(t, b, 0) + [NEWLINE])
    ensures first == match RereadAll(t, a) case Some(r) => Ok(Some(r)) case None => Err(Syntax)
    ensures second != Ok(Some(b))
    ensures first.Ok? && b == [] ==> second == Ok(None)
    ensures first.Ok? && b != [] && ShortName(t, b[0].id) !in t.ids ==> second.Err?
    ensures first.Ok? && b != [] ==>
              second == match ReadBuf(t, Late(t, b), 0, 0, []) case Got(fs, _) => Ok(Some(fs)) case Bad(e) => Err(e)
  {
    hide *;
    ghost var behind := ShowFields(t, b, 0) + [NEWLINE];
    PrintedIsRead(t, a, behind);
    var used;
    first, used := Extread(t, text);
    if first.Err? {
      return first, Err(Syntax);
    }
    assert text[used..] == behind[1..];
    LateIs(t, b);
    if b != [] {
      LateIsOther(t, b);
    }
    second, used := Extread(t, text[used..]);
  }

  lemma LateIs(t: Tables, b: Contents)
    ensures Late(t, b) == (ShowFields(t, b, 0) + [NEWLINE])[1..]
    ensures if b == [] then Late(t, b) == [] else Late(t, b) != []
  {
  }
}
