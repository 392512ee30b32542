/** Percent-encoding (sections 2.1 and 2.3 of RFC 3986, with '=' taken as unreserved), and trimming. */
module Urls {
  import opened Bytes
  import opened Options

  type Text = seq<Byte>

  const SPACE: Byte := 0x20
  const PERCENT: Byte := 0x25
  const AMPERSAND: Byte := 0x26
  const PLUS: Byte := 0x2B
  const SEMICOLON: Byte := 0x3B
  const EQUALS: Byte := 0x3D

  /** The table of characters left as they are: letters, digits, '-', '.', '_', '~' and '='. */
  predicate Unreserved(b: Byte) {
    || b == 0x2D || b == 0x2E || 0x30 <= b <= 0x39 || b == EQUALS
    || 0x41 <= b <= 0x5A || b == 0x5F || 0x61 <= b <= 0x7A || b == 0x7E
  }

  /** The digits written are those of upper case. */
  function HexDigit(n: nat): (b: Byte)
    requires n < 16
    ensures 0x30 <= b <= 0x39 || 0x41 <= b <= 0x46
  {
    if n < 10 then 0x30 + n else 0x41 + (n - 10)
  }

  predicate IsHexDigit(b: Byte) {
    0x30 <= b <= 0x39 || 0x41 <= b <= 0x46 || 0x61 <= b <= 0x66
  }

  function HexValue(b: Byte): (n: nat)
    requires IsHexDigit(b)
    ensures n < 16
  {
    if b <= 0x39 then b - 0x30 else if b <= 0x46 then b - 0x41 + 10 else b - 0x61 + 10
  }

  /** Left as they are: the letters, the digits, and "-._~=". */
  lemma UnreservedIs(b: Byte)
    ensures var c := b as char;
      Unreserved(b) <==>
        || 'A' <= c <= 'Z' || 'a' <= c <= 'z' || '0' <= c <= '9'
        || c == '-' || c == '.' || c == '_' || c == '~' || c == '='
  {
  }

  /** The marks and separators are those of RFC 3986 and of form, query and cookie texts. */
  lemma MarksAre()
    ensures SPACE as char == ' ' && PERCENT as char == '%' && PLUS as char == '+'
    ensures AMPERSAND as char == '&' && SEMICOLON as char == ';' && EQUALS as char == '='
  {
  }

  /** The hexadecimal digit of `v`, of either case. */
  function Digit(v: nat, upper: bool): char
    requires v < 16
  {
    if v < 10 then '0' + v as char else (if upper then 'A' else 'a') + (v - 10) as char
  }

  /** The bytes read as digits are those of either case, each with its value; those written are of upper case. */
  lemma DigitsAre(b: Byte)
    ensures IsHexDigit(b) <==> exists v, upper :: 0 <= v < 16 && b as char == Digit(v, upper)
    ensures forall v, upper :: 0 <= v < 16 && b as char == Digit(v, upper) ==> IsHexDigit(b) && HexValue(b) == v
    ensures forall v :: 0 <= v < 16 ==> HexDigit(v) as char == Digit(v, true)
  {
    if IsHexDigit(b) {
      var v := HexValue(b);
      assert b as char == Digit(v, b <= 0x46);
    }
  }

  // ---------------------------------------------------------------------------------------------
  // The eager forms
  // ---------------------------------------------------------------------------------------------

  function Escape(b: Byte): Text {
    [PERCENT, HexDigit(b / 16), HexDigit(b % 16)]
  }

  function EncodeByte(b: Byte, spaceAsPlus: bool): Text {
    if Unreserved(b) then [b]
    else if b == SPACE && spaceAsPlus then [PLUS]
    else Escape(b)
  }

  function Encode(s: Text, spaceAsPlus: bool): Text {
    if s == [] then [] else EncodeByte(s[0], spaceAsPlus) + Encode(s[1..], spaceAsPlus)
  }

  /** Whether `s` starts with a percent sign and two hexadecimal digits. */
  predicate Escaped(s: Text) {
    |s| > 2 && s[0] == PERCENT && IsHexDigit(s[1]) && IsHexDigit(s[2])
  }

  function Decode(s: Text, spaceAsPlus: bool): Text {
    if s == [] then []
    else if s[0] == PLUS && spaceAsPlus then [SPACE] + Decode(s[1..], spaceAsPlus)
    else if Escaped(s) then [Unescape(s[1], s[2])] + Decode(s[3..], spaceAsPlus)
    else [s[0]] + Decode(s[1..], spaceAsPlus)
  }

  function Unescape(high: Byte, low: Byte): Byte
    requires IsHexDigit(high) && IsHexDigit(low)
  {
    HexValue(high) * 16 + HexValue(low)
  }

  lemma HexRoundTrip(b: Byte)
    ensures Escaped(Escape(b)) && Unescape(Escape(b)[1], Escape(b)[2]) == b
  {
    assert b == b / 16 * 16 + b % 16;
  }

  /** A percent sign and two digits, each of either case, is read as the byte they write. */
  lemma DecodesEitherCase(b: Byte, upperHigh: bool, upperLow: bool, rest: Text, spaceAsPlus: bool)
    ensures Decode([PERCENT, Digit(b / 16, upperHigh) as Byte, Digit(b % 16, upperLow) as Byte] + rest, spaceAsPlus) ==
            [b] + Decode(rest, spaceAsPlus)
  {
    var high, low := Digit(b / 16, upperHigh) as Byte, Digit(b % 16, upperLow) as Byte;
    DigitsAre(high);
    DigitsAre(low);
    assert b == b / 16 * 16 + b % 16;
    assert ([PERCENT, high, low] + rest)[3..] == rest;
  }

  /** A byte that is not left as it is, is written as a percent sign and two digits of upper case, or as a plus. */
  lemma EncodesUpperCase(b: Byte, spaceAsPlus: bool)
    ensures EncodeByte(b, spaceAsPlus) ==
      if Unreserved(b) then [b]
      else if b as char == ' ' && spaceAsPlus then ['+' as Byte]
      else ['%' as Byte, Digit(b / 16, true) as Byte, Digit(b % 16, true) as Byte]
  {
    DigitsAre(b);
  }

  /** What decoding makes of one encoded byte: only a space written as '+' and read as it stands is lost. */
  lemma DecodeByte(b: Byte, spaceAsPlus: bool, readPlus: bool, rest: Text)
    ensures Decode(EncodeByte(b, spaceAsPlus) + rest, readPlus) ==
            [if b == SPACE && spaceAsPlus && !readPlus then PLUS else b] + Decode(rest, readPlus)
  {
    HexRoundTrip(b);
    var s := EncodeByte(b, spaceAsPlus) + rest;
    if |EncodeByte(b, spaceAsPlus)| == 1 {
      assert s[1..] == rest;
    } else {
      assert s[3..] == rest;
    }
  }

  /** Decoding undoes encoding exactly when no space was written as '+' to be read as '+'. */
  lemma {:induction false} DecodeEncodeIff(s: Text, spaceAsPlus: bool, readPlus: bool)
    ensures |Decode(Encode(s, spaceAsPlus), readPlus)| == |s|
    ensures Decode(Encode(s, spaceAsPlus), readPlus) == s <==> (spaceAsPlus && !readPlus ==> SPACE !in s)
  {
    if s != [] {
      DecodeByte(s[0], spaceAsPlus, readPlus, Encode(s[1..], spaceAsPlus));
      DecodeEncodeIff(s[1..], spaceAsPlus, readPlus);
      assert s == [s[0]] + s[1..];
    }
  }

  lemma RoundTrip(s: Text, spaceAsPlus: bool)
    ensures Decode(Encode(s, spaceAsPlus), spaceAsPlus) == s
  {
    DecodeEncodeIff(s, spaceAsPlus, spaceAsPlus);
  }

  /** Encoded text is made of unreserved characters, '%' and '+'. */
  lemma {:induction false} EncodedIsSafe(s: Text, spaceAsPlus: bool)
    ensures forall i :: 0 <= i < |Encode(s, spaceAsPlus)| ==>
              var b := Encode(s, spaceAsPlus)[i]; Unreserved(b) || b == PERCENT || b == PLUS
  {
    if s != [] {
      EncodedIsSafe(s[1..], spaceAsPlus);
    }
  }

  predicate AllUnreserved(s: Text) {
    forall i :: 0 <= i < |s| ==> Unreserved(s[i])
  }

  lemma AllUnreservedNext(s: Text)
    requires s != []
    ensures AllUnreserved(s) <==> Unreserved(s[0]) && AllUnreserved(s[1..])
  {
    assert forall i :: 0 < i < |s| ==> s[i] == s[1..][i - 1];
    if Unreserved(s[0]) && AllUnreserved(s[1..]) {
      forall i | 0 < i < |s|
        ensures Unreserved(s[i])
      {
        assert Unreserved(s[1..][i - 1]);
      }
    }
  }

  /** Text is left as it is by encoding exactly when it is all unreserved. */
  lemma {:induction false} EncodeKeepsIff(s: Text, spaceAsPlus: bool)
    ensures |Encode(s, spaceAsPlus)| >= |s|
    ensures Encode(s, spaceAsPlus) == s <==> AllUnreserved(s)
  {
    hide AllUnreserved, Unreserved;
    if s == [] {
      NothingIsUnreserved();
    } else {
      var rest := Encode(s[1..], spaceAsPlus);
      EncodeKeepsIff(s[1..], spaceAsPlus);
      AllUnreservedNext(s);
      FirstEncoded(s[0], s[1..], spaceAsPlus, rest);
      assert s == [s[0]] + s[1..];
    }
  }

  lemma NothingIsUnreserved()
    ensures AllUnreserved([])
  {
  }

  lemma FirstEncoded(b: Byte, more: Text, spaceAsPlus: bool, rest: Text)
    requires |rest| >= |more|
    ensures |EncodeByte(b, spaceAsPlus) + rest| >= 1 + |more|
    ensures EncodeByte(b, spaceAsPlus) + rest == [b] + more <==> Unreserved(b) && rest == more
  {
    var e := EncodeByte(b, spaceAsPlus) + rest;
    if e == [b] + more {
      assert e[0] == b && |e| == 1 + |more|;
      assert e[1..] == more;
    }
  }

  /** Where decoding changes something: a plus to be read as a space, or a percent sign with two digits after it. */
  predicate Encoded(s: Text, spaceAsPlus: bool) {
    s != [] && ((s[0] == PLUS && spaceAsPlus) || Escaped(s))
  }

  predicate NothingEncoded(s: Text, spaceAsPlus: bool) {
    forall i :: 0 <= i < |s| ==> !Encoded(s[i..], spaceAsPlus)
  }

  lemma NothingEncodedNext(s: Text, spaceAsPlus: bool)
    requires s != []
    ensures NothingEncoded(s, spaceAsPlus) <==> !Encoded(s, spaceAsPlus) && NothingEncoded(s[1..], spaceAsPlus)
  {
    hide Encoded;
    assert s[0..] == s;
    forall i | 0 < i < |s|
      ensures s[i..] == s[1..][i - 1..]
    {
    }
    if NothingEncoded(s, spaceAsPlus) {
      forall i | 0 <= i < |s[1..]|
        ensures !Encoded(s[1..][i..], spaceAsPlus)
      {
        assert s[1..][i..] == s[i + 1..];
      }
    }
  }

  /** Text is left as it is by decoding exactly when it has no such place; a percent sign without its digits is none. */
  lemma {:induction false} DecodeKeepsIff(s: Text, spaceAsPlus: bool)
    ensures |Decode(s, spaceAsPlus)| <= |s|
    ensures Decode(s, spaceAsPlus) == s <==> NothingEncoded(s, spaceAsPlus)
  {
    hide NothingEncoded, IsHexDigit, Unescape;
    if s == [] {
      NothingIsEncoded(spaceAsPlus);
    } else {
      NothingEncodedNext(s, spaceAsPlus);
      if s[0] == PLUS && spaceAsPlus {
        DecodeKeepsIff(s[1..], spaceAsPlus);
        assert Decode(s, spaceAsPlus)[0] == SPACE;
      } else if Escaped(s) {
        DecodeKeepsIff(s[3..], spaceAsPlus);
      } else {
        DecodeKeepsIff(s[1..], spaceAsPlus);
        var d := Decode(s, spaceAsPlus);
        assert d == [s[0]] + Decode(s[1..], spaceAsPlus) && d[1..] == Decode(s[1..], spaceAsPlus);
        assert s == [s[0]] + s[1..];
      }
    }
  }

  lemma NothingIsEncoded(spaceAsPlus: bool)
    ensures NothingEncoded([], spaceAsPlus)
  {
  }

  // ---------------------------------------------------------------------------------------------
  // The forms that copy only from the first changed byte on
  // ---------------------------------------------------------------------------------------------

  /** What has been produced once the first `c` bytes are done: a copy, or as yet the bytes themselves. */
  function Produced(s: Text, c: nat, copy: Option<Text>): Text
    requires c <= |s|
  {
    if copy.Some? then copy.value else s[..c]
  }

  lemma EncodeTurn(s: Text, c: nat, spaceAsPlus: bool, before: Text, after: Text)
    requires c < |s| && after == before + EncodeByte(s[c], spaceAsPlus)
    ensures before + Encode(s[c..], spaceAsPlus) == after + Encode(s[c + 1..], spaceAsPlus)
  {
    assert s[c..][1..] == s[c + 1..];
  }

  /** One byte done: the copy begins at the first byte that is not left as it is. */
  method EncodeNext(s: Text, c: nat, copy: Option<Text>, spaceAsPlus: bool) returns (ss: Option<Text>)
    requires c < |s|
    ensures Produced(s, c + 1, ss) == Produced(s, c, copy) + EncodeByte(s[c], spaceAsPlus)
  {
    ss := copy;
    if !Unreserved(s[c]) {
      if ss.None? {
        ss := Some(s[..c]);
      }
      if s[c] == SPACE && spaceAsPlus {
        ss := Some(ss.value + [PLUS]);
      } else {
        ss := Some(ss.value + Escape(s[c]));
      }
    } else if ss.Some? {
      ss := Some(ss.value + [s[c]]);
    }
  }

  method UrlEncode(s: Text, spaceAsPlus: bool) returns (r: Text)
    ensures r == Encode(s, spaceAsPlus)
  {
    var ss: Option<Text> := None;
    var c := 0;
    assert s[0..] == s && s[..0] == [];
    while c < |s|
      invariant 0 <= c <= |s|
      invariant Produced(s, c, ss) + Encode(s[c..], spaceAsPlus) == Encode(s, spaceAsPlus)
    {
      ghost var before := Produced(s, c, ss);
      ss := EncodeNext(s, c, ss, spaceAsPlus);
      EncodeTurn(s, c, spaceAsPlus, before, Produced(s, c + 1, ss));
      c := c + 1;
    }
    return if ss.None? then s else ss.value;
  }

  /** What decoding makes of the front of `s`, and how much of it that takes. */
  function DecodedFront(s: Text, spaceAsPlus: bool): (Byte, nat)
    requires s != []
  {
    if s[0] == PLUS && spaceAsPlus then (SPACE, 1)
    else if Escaped(s) then (Unescape(s[1], s[2]), 3)
    else (s[0], 1)
  }

  lemma DecodeTurn(s: Text, c: nat, spaceAsPlus: bool, before: Text, after: Text)
    requires c < |s| && after == before + [DecodedFront(s[c..], spaceAsPlus).0]
    ensures var n := DecodedFront(s[c..], spaceAsPlus).1;
      c + n <= |s| && before + Decode(s[c..], spaceAsPlus) == after + Decode(s[c + n..], spaceAsPlus)
  {
    var n := DecodedFront(s[c..], spaceAsPlus).1;
    assert s[c..][n..] == s[c + n..];
  }

  method UrlDecode(s: Text, spaceAsPlus: bool) returns (r: Text)
    ensures r == Decode(s, spaceAsPlus)
  {
    hide Unescape, IsHexDigit;
    var ss: Option<Text> := None;
    var c := 0;
    assert s[0..] == s && s[..0] == [];
    while c < |s|
      invariant 0 <= c <= |s|
      invariant Produced(s, c, ss) + Decode(s[c..], spaceAsPlus) == Decode(s, spaceAsPlus)
    {
      ghost var before, first := Produced(s, c, ss), c;
      if s[c] == PLUS && spaceAsPlus {
        if ss.None? {
          ss := Some(s[..c]);
        }
        ss := Some(ss.value + [SPACE]);
      } else if s[c] == PERCENT && c + 2 < |s| && IsHexDigit(s[c + 1]) && IsHexDigit(s[c + 2]) {
        if ss.None? {
          ss := Some(s[..c]);
        }
        ss := Some(ss.value + [Unescape(s[c + 1], s[c + 2])]);
        c := c + 2;
      } else if ss.Some? {
        ss := Some(ss.value + [s[c]]);
      }
      c := c + 1;
      assert Produced(s, c, ss) == before + [DecodedFront(s[first..], spaceAsPlus).0];
      DecodeTurn(s, first, spaceAsPlus, before, Produced(s, c, ss));
    }
    return if ss.None? then s else ss.value;
  }

  // ---------------------------------------------------------------------------------------------
  // Trimming
  // ---------------------------------------------------------------------------------------------

  const BLANKS: Text := [0x20, 0x09, 0x0D, 0x0A]

  function FirstKept(s: Text, delimit: Text): (i: nat)
    ensures i <= |s| && (forall j :: 0 <= j < i ==> s[j] in delimit) && (i < |s| ==> s[i] !in delimit)
  {
    if s == [] || s[0] !in delimit then 0 else 1 + FirstKept(s[1..], delimit)
  }

  /** One past the last byte kept. */
  function KeptEnd(s: Text, delimit: Text): (i: nat)
    ensures i <= |s| && (forall j :: i <= j < |s| ==> s[j] in delimit) && (i > 0 ==> s[i - 1] !in delimit)
  {
    if s == [] then 0 else if s[|s| - 1] !in delimit then |s| else KeptEnd(s[..|s| - 1], delimit)
  }

  function Trim(s: Text, delimit: Text): Text {
    if FirstKept(s, delimit) == |s| then [] else KeptOrder(s, delimit); s[FirstKept(s, delimit)..KeptEnd(s, delimit)]
  }

  lemma KeptOrder(s: Text, delimit: Text)
    ensures FirstKept(s, delimit) < |s| ==> FirstKept(s, delimit) < KeptEnd(s, delimit)
    ensures FirstKept(s, delimit) == |s| <==> KeptEnd(s, delimit) == 0
  {
    if KeptEnd(s, delimit) > 0 {
      assert s[KeptEnd(s, delimit) - 1] !in delimit;
    }
  }

  lemma SplitInThree(s: Text, i: nat, j: nat)
    requires i < j <= |s|
    ensures s == s[..i] + s[i..j] + s[j..] && s[i..j][0] == s[i] && s[i..j][j - i - 1] == s[j - 1]
  {
  }

  /** Blanks are the space, the tabulator, the carriage return and the line feed. */
  lemma BlanksAre(b: Byte)
    ensures b in BLANKS <==> b as char == ' ' || b as char == '\t' || b as char == '\r' || b as char == '\n'
  {
  }

  /** Delimiters put around a text that has none at its ends are all that trimming takes off. */
  lemma TrimUndoes(before: Text, s: Text, after: Text, delimit: Text)
    requires (forall b :: b in before ==> b in delimit) && forall b :: b in after ==> b in delimit
    requires s != [] ==> s[0] !in delimit && s[|s| - 1] !in delimit
    ensures Trim(before + s + after, delimit) == s
  {
    var all := before + s + after;
    var i, j := FirstKept(all, delimit), KeptEnd(all, delimit);
    KeptOrder(all, delimit);
    assert forall k :: 0 <= k < |before| ==> all[k] == before[k] && all[k] in before;
    assert forall k :: |before| + |s| <= k < |all| ==> all[k] == after[k - |before| - |s|] && all[k] in after;
    if s == [] {
      assert forall k :: 0 <= k < |all| ==> all[k] in delimit;
    } else {
      assert all[|before|] == s[0] && all[|before| + |s| - 1] == s[|s| - 1];
      assert i == |before| && j == |before| + |s|;
      assert all[i..j] == s;
    }
  }

  /** Trimming takes the delimiters off both ends, all of them and nothing else. */
  lemma TrimIs(s: Text, delimit: Text) returns (before: Text, after: Text)
    ensures s == before + Trim(s, delimit) + after
    ensures (forall i :: 0 <= i < |before| ==> before[i] in delimit) && forall i :: 0 <= i < |after| ==> after[i] in delimit
    ensures Trim(s, delimit) != [] ==>
              Trim(s, delimit)[0] !in delimit && Trim(s, delimit)[|Trim(s, delimit)| - 1] !in delimit
  {
    KeptOrder(s, delimit);
    if FirstKept(s, delimit) == |s| {
      before, after := s, [];
    } else {
      var i, j := FirstKept(s, delimit), KeptEnd(s, delimit);
      before, after := s[..i], s[j..];
      SplitInThree(s, i, j);
      assert Trim(s, delimit) == s[i..j];
    }
  }

  /** TrimRight as written: the substring stops before the last byte that is no delimiter. */
  function TrimRight(s: Text, delimit: Text): Text {
    if KeptEnd(s, delimit) == 0 then [] else s[..KeptEnd(s, delimit) - 1]
  }

  /** So it takes off the delimiters at the end and no more only where there is nothing else; elsewhere one byte more. */
  lemma TrimRightIff(s: Text, delimit: Text) returns (last: Text, after: Text)
    ensures s == TrimRight(s, delimit) + last + after && forall b :: b in after ==> b in delimit
    ensures last == [] <==> forall b :: b in s ==> b in delimit
    ensures last != [] ==> |last| == 1 && last[0] !in delimit
  {
    var i := KeptEnd(s, delimit);
    after := s[i..];
    last := [];
    if i > 0 {
      assert s[i - 1] in s;
      last := [s[i - 1]];
    }
  }

  lemma TrimRightDropsLetter(letter: Byte)
    requires letter !in BLANKS
    ensures TrimRight([letter, SPACE], BLANKS) == []
  {
    var s := [letter, SPACE];
    assert s[..1] == [letter] && KeptEnd(s[..1], BLANKS) == 1;
    assert KeptEnd(s, BLANKS) == 1;
  }
}
