/** The symbols of the texts, as characters. */
module Symbols {
  import opened Bytes
  import opened Wrappers
  import opened Scanning
  import opened Escapes
  import opened Decimal
  import opened Expressions
  import opened ExprGrammar
  import opened TextForm

  /** A text of characters below 256 as bytes. */
  function Chars(s: string): (b: seq<byte>)
    ensures |b| == |s| && forall i :: 0 <= i < |s| ==> b[i] == s[i] as int % 256
  {
    seq(|s|, i requires 0 <= i < |s| => s[i] as int % 256)
  }

  predicate Between(c: byte, low: char, high: char) { low as int <= c <= high as int }

  /** Digits, letters, name symbols, hexadecimal digits, white space and printable symbols. */
  lemma SymbolClasses(c: byte)
    ensures IsDigit(c) <==> Between(c, '0', '9')
    ensures IsAlpha(c) <==> Between(c, 'A', 'Z') || Between(c, 'a', 'z')
    ensures IsNamePart(c) <==> Between(c, 'A', 'Z') || Between(c, 'a', 'z') || Between(c, '0', '9') || c as char == '_'
    ensures IsHex(c) <==> Between(c, '0', '9') || Between(c, 'A', 'F') || Between(c, 'a', 'f')
    ensures IsSpace(c) <==> c as char in " \t\n\U{000B}\U{000C}\r"
    ensures IsPrint(c) <==> Between(c, ' ', '~')
    ensures IsFlag(c) <==> c as char in "+-="
    ensures IsUnaryOp(c) <==> c as char in "+-!~"
    ensures IsOpStart(c) <==> c as char in "+-!~*/%<>=^&|"
    ensures IsOpNext(c) <==> c as char in "=%&|"
  {
  }

  /** The sixteen digits, small letters and capital letters alike. */
  lemma HexDigits(c: byte, n: nat)
    ensures n < 16 ==> HexDigit(n) as char == "0123456789abcdef"[n]
    ensures n < 16 && IsHex(c) ==> (Base16(c) == n <==> c as char == "0123456789abcdef"[n] || c as char == "0123456789ABCDEF"[n])
  {
  }

  lemma SpecialSymbols()
    ensures [TAB, NEWLINE, SPACE, QUOTE, LPAREN, RPAREN] == Chars("\t\n '()")
    ensures [MINUS, DOT, ZERO, QUESTION, LBRACKET, BACKSLASH, RBRACKET, UNDERSCORE] == Chars("-.0?[\\]_")
  {
  }

  lemma OneChar(c: char)
    ensures Chars([c]) == [c as int % 256]
  {
  }

  lemma TwoChars(c: char, d: char)
    ensures Chars([c, d]) == [c as int % 256, d as int % 256]
  {
  }

  /** How each operator of one symbol is written. */
  lemma ShortOperators()
    ensures BinText(MULTIPLICATION) == Chars("*") && BinText(DIVISION) == Chars("/") && BinText(MODULUS) == Chars("%")
    ensures BinText(ADDITION) == Chars("+") && BinText(SUBTRACTION) == Chars("-") && BinText(EXCLUSIVE_OR) == Chars("^")
    ensures BinText(LESS_THAN) == Chars("<") && BinText(GREATER_THAN) == Chars(">")
    ensures UnText(UNARY_MINUS) as char == '-' && UnText(LOGICAL_NEGATION) as char == '!'
    ensures UnText(BITWISE_NEGATION) as char == '~'
  {
    hide Chars;
    OneChar('*');
    OneChar('/');
    OneChar('%');
    OneChar('+');
    OneChar('-');
    OneChar('^');
    OneChar('<');
    OneChar('>');
  }

  /** And of two symbols. */
  lemma LongOperators()
    ensures BinText(LOGICAL_AND) == Chars("&&") && BinText(LOGICAL_OR) == Chars("||")
    ensures BinText(LESS_OR_EQUAL) == Chars("<=") && BinText(GREATER_OR_EQUAL) == Chars(">=")
    ensures BinText(EQUAL) == Chars("==") && BinText(NOT_EQUAL) == Chars("!=")
    ensures BinText(MATCHES) == Chars("%%") && BinText(NOT_MATCHES) == Chars("!%")
  {
    hide Chars;
    TwoChars('&', '&');
    TwoChars('|', '|');
    TwoChars('<', '=');
    TwoChars('>', '=');
    TwoChars('=', '=');
    TwoChars('!', '=');
    TwoChars('%', '%');
    TwoChars('!', '%');
  }

  /** A printable byte is shown as it is, another one as a backslash and hexadecimal digits: two, or
      eight when it is negative as a character. */
  lemma ByteIsShown(c: byte)
    ensures ShowByte(c) ==
            if Between(c, ' ', '~') then [c]
            else if c < 128 then Chars("\\") + [HexDigit(c / 16), HexDigit(c % 16)]
            else Chars("\\ffffff") + [HexDigit(c / 16), HexDigit(c % 16)]
  {
    assert Chars("\\") == [BACKSLASH];
    assert Chars("\\ffffff") == [BACKSLASH] + [102, 102, 102, 102, 102, 102];
  }

  lemma NamelessField(t: Tables, id: nat)
    requires id !in t.names
    ensures ShowName(t, id) == Chars("(FLDID32(") + Text(ToInt32(id)) + Chars("))")
  {
    assert Chars("(FLDID32(") == [40, 70, 76, 68, 73, 68, 51, 50, 40];
    assert Chars("))") == [41, 41];
  }

  /** Numbers are decimal, the first digit the highest, with a sign in front. */
  lemma DecimalTexts()
    ensures Text(-1203) == Chars("-1203") && Number(Chars("1203")) == 1203
  {
    assert Digits(1) == [49] && Digits(12) == [49, 50] && Digits(120) == [49, 50, 48];
    assert Digits(1203) == [49, 50, 48, 51];
    NumberOfDigits(1203);
    assert Text(-1203) == [MINUS] + Digits(1203);
    assert Chars("1203") == Digits(1203) && Chars("-1203") == [MINUS] + Digits(1203);
  }
}
