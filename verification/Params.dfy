/** Parsing `key=value` lists: the query, the form body and the cookies of a request. */
module Params {
  import opened Bytes
  import opened Options
  import opened Urls

  datatype Param = Param(key: Text, value: Text)

  function ToLower(b: Byte): Byte {
    if 0x41 <= b <= 0x5A then b + 0x20 else b
  }

  /** What strcasecmp compares: the bytes before the first NUL, in lower case. Keys that agree in it are the same key. */
  function Canon(key: Text): Text {
    if key == [] || key[0] == 0 then [] else [ToLower(key[0])] + Canon(key[1..])
  }

  /** The same byte, or the two cases of one letter. */
  predicate SameLetter(a: Byte, b: Byte) {
    || a == b
    || ('A' <= a as char <= 'Z' && b == a + 32)
    || ('A' <= b as char <= 'Z' && a == b + 32)
  }

  lemma LowerIff(a: Byte, b: Byte)
    ensures ToLower(a) == ToLower(b) <==> SameLetter(a, b)
  {
  }

  /** Keys free of NUL are the same key exactly when they are equal but for case. */
  lemma {:induction false} CanonIff(a: Text, b: Text)
    requires 0 !in a && 0 !in b
    ensures Canon(a) == Canon(b) <==> |a| == |b| && forall i :: 0 <= i < |a| ==> SameLetter(a[i], b[i])
  {
    if a != [] && b != [] {
      CanonIff(a[1..], b[1..]);
      LowerIff(a[0], b[0]);
      hide SameLetter;
      if SameLetter(a[0], b[0]) && |a| == |b| {
        if forall i :: 0 <= i < |a| - 1 ==> SameLetter(a[1..][i], b[1..][i]) {
          forall i | 0 <= i < |a|
            ensures SameLetter(a[i], b[i])
          {
            assert i > 0 ==> a[i] == a[1..][i - 1] && b[i] == b[1..][i - 1];
          }
        }
      }
      if |a| == |b| && forall i :: 0 <= i < |a| ==> SameLetter(a[i], b[i]) {
        forall i | 0 <= i < |a| - 1
          ensures SameLetter(a[1..][i], b[1..][i])
        {
          assert a[i + 1] == a[1..][i] && b[i + 1] == b[1..][i];
        }
      }
      assert Canon(a)[1..] == Canon(a[1..]) && Canon(b)[1..] == Canon(b[1..]);
    }
  }

  /** What follows a NUL in a key counts for nothing. */
  lemma {:induction false} CanonStops(key: Text, more: Text)
    requires 0 !in key
    ensures Canon(key + [0] + more) == Canon(key) && |Canon(key)| == |key|
  {
    var all := key + [0] + more;
    if key == [] {
      assert all[0] == 0;
    } else {
      assert all[1..] == key[1..] + [0] + more;
      CanonStops(key[1..], more);
    }
  }

  type ParamMap = map<Text, Param>

  /** An insert into the map, which keeps what it has. */
  function Insert(m: ParamMap, key: Text, value: Text): ParamMap {
    if Canon(key) in m then m else m[Canon(key) := Param(key, value)]
  }

  function InsertAll(m: ParamMap, params: seq<Param>): ParamMap
    decreases |params|
  {
    if params == [] then m else InsertAll(Insert(m, params[0].key, params[0].value), params[1..])
  }

  /** The first of the parameters with this key, or their number. */
  function FirstWith(params: seq<Param>, canon: Text): (i: nat)
    ensures i <= |params| && (i < |params| ==> Canon(params[i].key) == canon)
    ensures forall j :: 0 <= j < i ==> Canon(params[j].key) != canon
  {
    if params == [] || Canon(params[0].key) == canon then 0 else 1 + FirstWith(params[1..], canon)
  }

  /** What was there stays; of new parameters with one key the first counts. */
  lemma {:induction false} FirstWins(m: ParamMap, params: seq<Param>, canon: Text)
    ensures canon in InsertAll(m, params) <==> canon in m || FirstWith(params, canon) < |params|
    ensures canon in m ==> InsertAll(m, params)[canon] == m[canon]
    ensures canon !in m && FirstWith(params, canon) < |params| ==>
              InsertAll(m, params)[canon] == params[FirstWith(params, canon)]
    decreases |params|
  {
    if params != [] {
      FirstWins(Insert(m, params[0].key, params[0].value), params[1..], canon);
    }
  }

  /** The first `b` in the text from `from` on, or its end. */
  function Find(s: Text, b: Byte, from: nat): (i: nat)
    requires from <= |s|
    ensures from <= i <= |s| && (i < |s| ==> s[i] == b) && forall j :: from <= j < i ==> s[j] != b
    decreases |s| - from
  {
    if from == |s| || s[from] == b then from else Find(s, b, from + 1)
  }

  function Key(s: Text, trim: bool): Text {
    if trim then Trim(s, BLANKS) else s
  }

  /** The first pair of a text, still encoded, and the text after its separator, where there is one. */
  datatype Split = NoPair | Split(key: Text, value: Text, rest: Option<Text>)

  /** A key runs up to the next '=', its value from there to the next separator. */
  function SplitPair(s: Text, sep: Byte): (r: Split)
    requires sep != EQUALS
    ensures r.Split? && r.rest.Some? ==> |r.rest.value| < |s|
  {
    var eq := Find(s, EQUALS, 0);
    if eq == |s| then NoPair
    else
      var end := Find(s, sep, eq);
      Split.Split(s[..eq], s[eq + 1..end], if end == |s| then None else Some(s[end + 1..]))
  }

  /** A pair as read goes into the map, its value decoded. */
  function Enter(m: ParamMap, key: Text, value: Text, trim: bool): ParamMap {
    Insert(m, Key(key, trim), Decode(value, true))
  }

  function Parse(s: Text, sep: Byte, trim: bool, m: ParamMap): ParamMap
    requires sep != EQUALS
    decreases |s|
  {
    match SplitPair(s, sep)
    case NoPair => m
    case Split(key, value, rest) =>
      var n := Enter(m, key, value, trim);
      if rest.None? then n else Parse(rest.value, sep, trim, n)
  }

  lemma FindIsUnique(s: Text, b: Byte, from: nat, i: nat)
    requires from <= i <= |s| && (i < |s| ==> s[i] == b) && forall j :: from <= j < i ==> s[j] != b
    ensures Find(s, b, from) == i
  {
  }

  lemma FindInSuffix(s: Text, b: Byte, pos: nat, from: nat)
    requires pos + from <= |s|
    ensures Find(s, b, pos + from) == pos + Find(s[pos..], b, from)
  {
    var i := Find(s[pos..], b, from);
    assert forall j :: pos + from <= j < pos + i ==> s[j] == s[pos..][j - pos];
    FindIsUnique(s, b, pos + from, pos + i);
  }

  lemma SplitIs(s: Text, sep: Byte, eq: nat, end: nat)
    requires sep != EQUALS && eq < end <= |s| && s[eq] == EQUALS && (end < |s| ==> s[end] == sep)
    requires (forall j :: 0 <= j < eq ==> s[j] != EQUALS) && forall j :: eq < j < end ==> s[j] != sep
    ensures SplitPair(s, sep) == Split.Split(s[..eq], s[eq + 1..end], if end == |s| then None else Some(s[end + 1..]))
  {
    FindIsUnique(s, EQUALS, 0, eq);
    FindIsUnique(s, sep, eq, end);
  }

  /** Where there is no '=' there is no pair. */
  lemma NoPairIff(s: Text, sep: Byte)
    requires sep != EQUALS
    ensures SplitPair(s, sep).NoPair? <==> '=' as Byte !in s
  {
    var eq := Find(s, EQUALS, 0);
    assert eq < |s| ==> s[eq] in s;
  }

  lemma SliceOfSuffix(s: Text, pos: nat, i: nat, j: nat)
    requires pos <= i <= j <= |s|
    ensures s[pos..][i - pos..j - pos] == s[i..j]
    ensures j == |s| ==> s[pos..][i - pos..] == s[i..]
    ensures i == pos ==> s[pos..][..j - pos] == s[i..j]
  {
  }

  /** The first pair from `pos` on, seen from the whole text. */
  lemma SplitAt(s: Text, pos: nat, sep: Byte, eq: nat, end: nat)
    requires sep != EQUALS && pos <= |s| && eq == Find(s, EQUALS, pos) && eq < |s| && end == Find(s, sep, eq)
    ensures SplitPair(s[pos..], sep) ==
            Split.Split(s[pos..eq], s[eq + 1..end], if end == |s| then None else Some(s[end + 1..]))
  {
    SliceOfSuffix(s, pos, pos, eq);
    SliceOfSuffix(s, pos, eq + 1, end);
    if end < |s| {
      SliceOfSuffix(s, pos, end + 1, |s|);
    }
    SplitIs(s[pos..], sep, eq - pos, end - pos);
  }

  method EnterPair(m: ParamMap, key: Text, value: Text, trim: bool) returns (r: ParamMap)
    ensures r == Enter(m, key, value, trim)
  {
    var decoded := UrlDecode(value, true);
    r := Insert(m, Key(key, trim), decoded);
  }

  /** The search for the next pair; `pos` is where the one after it starts, past the end if there is none. */
  method FindPair(s: Text, last: nat, sep: Byte) returns (found: bool, key: Text, value: Text, pos: nat)
    requires sep != EQUALS && last <= |s|
    ensures last < pos <= |s| + 1
    ensures SplitPair(s[last..], sep) ==
            if found then Split.Split(key, value, if pos > |s| then None else Some(s[pos..])) else NoPair
  {
    var eq := Find(s, EQUALS, last);
    if eq == |s| {
      FindInSuffix(s, EQUALS, last, 0);
      return false, [], [], |s| + 1;
    }
    pos := Find(s, sep, eq);
    SplitAt(s, last, sep, eq, pos);
    return true, s[last..eq], s[eq + 1..pos], pos + 1;
  }

  method ParseParam(s: Text, sep: Byte, trim: bool, m: ParamMap) returns (r: ParamMap)
    requires sep != EQUALS
    ensures r == Parse(s, sep, trim, m)
  {
    r := m;
    var pos := 0;
    assert s[0..] == s;
    while true
      invariant 0 <= pos <= |s|
      invariant Parse(s[pos..], sep, trim, r) == Parse(s, sep, trim, m)
      decreases |s| - pos
    {
      var found, key, value, next := FindPair(s, pos, sep);
      if !found {
        break;
      }
      r := EnterPair(r, key, value, trim);
      if next > |s| {
        break;
      }
      pos := next;
    }
  }

  // ---------------------------------------------------------------------------------------------
  // Printing and parsing back
  // ---------------------------------------------------------------------------------------------

  function Pair(p: Param, spaceAsPlus: bool): Text {
    p.key + [EQUALS] + Encode(p.value, spaceAsPlus)
  }

  /** The pairs, separated by `sep`. */
  function Print(params: seq<Param>, sep: Byte, spaceAsPlus: bool): Text {
    if params == [] then []
    else if |params| == 1 then Pair(params[0], spaceAsPlus)
    else Pair(params[0], spaceAsPlus) + [sep] + Print(params[1..], sep, spaceAsPlus)
  }

  function Trimmed(params: seq<Param>, trim: bool): (r: seq<Param>)
    ensures |r| == |params| && forall i :: 0 <= i < |r| ==> r[i] == Param(Key(params[i].key, trim), params[i].value)
  {
    seq(|params|, i requires 0 <= i < |params| => Param(Key(params[i].key, trim), params[i].value))
  }

  /** Where the parts of a pair lie in the text that starts with it. */
  lemma PairLayout(key: Text, e: Text, rest: Text)
    ensures var s, eq, end := key + [EQUALS] + e + rest, |key|, |key| + 1 + |e|;
      && |s| == end + |rest| && s[eq] == EQUALS && s[..eq] == key && s[eq + 1..end] == e && s[end..] == rest
      && (forall j :: 0 <= j < eq ==> s[j] == key[j]) && (forall j :: eq < j < end ==> s[j] == e[j - eq - 1])
      && (rest != [] ==> s[end] == rest[0] && s[end + 1..] == rest[1..])
  {
  }

  /** Splitting off one printed pair: the key ends at its '=', the value at the separator or the end. */
  lemma SplitPrinted(key: Text, e: Text, sep: Byte, rest: Text)
    requires EQUALS !in key && sep !in e && sep != EQUALS && (rest == [] || rest[0] == sep)
    ensures SplitPair(key + [EQUALS] + e + rest, sep) ==
            Split.Split(key, e, if rest == [] then None else Some(rest[1..]))
  {
    PairLayout(key, e, rest);
    SplitIs(key + [EQUALS] + e + rest, sep, |key|, |key| + 1 + |e|);
  }

  lemma ParsePair(p: Param, sep: Byte, spaceAsPlus: bool, trim: bool, m: ParamMap, rest: Text)
    requires EQUALS !in p.key && !Unreserved(sep) && sep != PERCENT && sep != PLUS
    requires rest == [] || rest[0] == sep
    ensures Parse(Pair(p, spaceAsPlus) + rest, sep, trim, m) ==
            (var n := Insert(m, Key(p.key, trim), p.value); if rest == [] then n else Parse(rest[1..], sep, trim, n))
  {
    EncodedIsSafe(p.value, spaceAsPlus);
    SplitPrinted(p.key, Encode(p.value, spaceAsPlus), sep, rest);
    DecodeEncodeIff(p.value, spaceAsPlus, true);
  }

  predicate KeysFit(params: seq<Param>) {
    forall i :: 0 <= i < |params| ==> EQUALS !in params[i].key
  }

  /**
   * Parsing printed pairs gives back the pairs, whichever way spaces were written: the map has their keys and
   * no new others, each with the value of its first pair unless it was there before.
   */
  lemma {:induction false} ParsePrint(params: seq<Param>, sep: Byte, spaceAsPlus: bool, trim: bool, m: ParamMap)
    requires KeysFit(params) && !Unreserved(sep) && sep != PERCENT && sep != PLUS
    ensures Parse(Print(params, sep, spaceAsPlus), sep, trim, m) == InsertAll(m, Trimmed(params, trim))
    decreases |params|
  {
    if params != [] {
      var p, rest := params[0], Print(params[1..], sep, spaceAsPlus);
      var n := Insert(m, Key(p.key, trim), p.value);
      assert Trimmed(params, trim)[1..] == Trimmed(params[1..], trim);
      if |params| == 1 {
        assert Pair(p, spaceAsPlus) + [] == Pair(p, spaceAsPlus);
        ParsePair(p, sep, spaceAsPlus, trim, m, []);
      } else {
        assert Print(params, sep, spaceAsPlus) == Pair(p, spaceAsPlus) + ([sep] + rest);
        ParsePair(p, sep, spaceAsPlus, trim, m, [sep] + rest);
        assert ([sep] + rest)[1..] == rest;
        ParsePrint(params[1..], sep, spaceAsPlus, trim, n);
      }
    }
  }

  /** Looking a key up in what was printed and parsed gives the value of its first pair, and of no other key anything. */
  lemma LookupIsFirst(params: seq<Param>, sep: Byte, spaceAsPlus: bool, trim: bool, canon: Text)
    requires KeysFit(params) && !Unreserved(sep) && sep != PERCENT && sep != PLUS
    ensures var r, i := Parse(Print(params, sep, spaceAsPlus), sep, trim, map[]), FirstWith(Trimmed(params, trim), canon);
      && (canon in r <==> i < |params|)
      && (canon in r ==> r[canon] == Param(Key(params[i].key, trim), params[i].value))
  {
    ParsePrint(params, sep, spaceAsPlus, trim, map[]);
    FirstWins(map[], Trimmed(params, trim), canon);
  }

  /** Where keys are not trimmed, as those of the query and the body are not, they are taken as they stand. */
  lemma ParseExact(params: seq<Param>, sep: Byte, spaceAsPlus: bool, m: ParamMap)
    requires KeysFit(params) && !Unreserved(sep) && sep != PERCENT && sep != PLUS
    ensures Parse(Print(params, sep, spaceAsPlus), sep, false, m) == InsertAll(m, params)
  {
    ParsePrint(params, sep, spaceAsPlus, false, m);
    assert Trimmed(params, false) == params;
  }

  predicate IsBlank(b: Byte) {
    b as char == ' ' || b as char == '\t' || b as char == '\r' || b as char == '\n'
  }

  predicate Blank(s: Text) {
    forall b :: b in s ==> IsBlank(b)
  }

  /** No blank begins or ends the key. */
  predicate Bare(key: Text) {
    key != [] ==> !IsBlank(key[0]) && !IsBlank(key[|key| - 1])
  }

  /** The same parameters, with blanks about the keys. */
  ghost predicate Padded(padded: seq<Param>, params: seq<Param>) {
    && |padded| == |params|
    && forall i :: 0 <= i < |params| ==> padded[i].value == params[i].value && PaddedKey(padded[i].key, params[i].key)
  }

  ghost predicate PaddedKey(padded: Text, key: Text) {
    exists before, after :: padded == before + key + after && Blank(before) && Blank(after)
  }

  lemma PaddedIsTrimmed(padded: Text, key: Text)
    requires PaddedKey(padded, key) && Bare(key)
    ensures Key(padded, true) == key
    ensures EQUALS in padded <==> EQUALS in key
  {
    var before, after :| padded == before + key + after && Blank(before) && Blank(after);
    forall b: Byte
      ensures b in BLANKS <==> IsBlank(b)
    {
      BlanksAre(b);
    }
    forall b | b in before + after
      ensures b in BLANKS && b != EQUALS
    {
      BlanksAre(b);
    }
    TrimUndoes(before, key, after, BLANKS);
  }

  /** Where keys are trimmed, as those of cookies are, blanks about them count for nothing. */
  lemma ParsePadded(params: seq<Param>, padded: seq<Param>, sep: Byte, spaceAsPlus: bool)
    requires KeysFit(params) && Padded(padded, params) && forall i :: 0 <= i < |params| ==> Bare(params[i].key)
    requires !Unreserved(sep) && sep != PERCENT && sep != PLUS
    ensures Parse(Print(padded, sep, spaceAsPlus), sep, true, map[]) == InsertAll(map[], params)
  {
    forall i | 0 <= i < |params|
      ensures EQUALS !in padded[i].key && Key(padded[i].key, true) == params[i].key
    {
      PaddedIsTrimmed(padded[i].key, params[i].key);
    }
    ParsePrint(padded, sep, spaceAsPlus, true, map[]);
    assert Trimmed(padded, true) == params;
  }
}
