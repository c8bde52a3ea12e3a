/** The canonical JSON encoder, in Go (pkg/contract/contract.go) and Python (pkg/contract/__init__.py). */
module Canonical {
  import opened Bytes
  import opened Decimal

  /** Text that neither json.Marshal nor json.dumps escapes: printable ASCII without quotes and backslashes, and
      without the three characters Go escapes for HTML. */
  type PlainString = s: bytes | PlainText(s) witness []

  /** Values without floating-point numbers. Maps are compared as maps. */
  datatype Json =
    | Null
    | Bool(b: bool)
    | Int(n: int)
    | Str(s: PlainString)
    | Arr(items: seq<Json>)
    | Obj(members: map<bytes, Json>)

  const QUOTE: byte := 0x22
  const COMMA: byte := 0x2c
  const COLON: byte := 0x3a
  const MINUS: byte := 0x2d
  const OPEN_ARR: byte := 0x5b
  const CLOSE_ARR: byte := 0x5d
  const OPEN_OBJ: byte := 0x7b
  const CLOSE_OBJ: byte := 0x7d
  const BACKSLASH: byte := 0x5c

  const NULL_TEXT: bytes := [0x6e, 0x75, 0x6c, 0x6c]
  const TRUE_TEXT: bytes := [0x74, 0x72, 0x75, 0x65]
  const FALSE_TEXT: bytes := [0x66, 0x61, 0x6c, 0x73, 0x65]

  // ---------------------------------------------------------------- the domain

  /** Printable ASCII that json.dumps leaves alone. */
  predicate PlainByte(c: byte) {
    0x20 <= c <= 0x7e && c != QUOTE && c != BACKSLASH
  }

  predicate PlainText(s: bytes) {
    forall c <- s :: PlainByte(c) && c !in {0x3c, 0x3e, 0x26}
  }

  /** Every byte of every key, at every depth, is one of `alphabet`. */
  ghost predicate KeysOver(v: Json, alphabet: set<byte>) {
    match v
    case Arr(items) => forall x <- items :: KeysOver(x, alphabet)
    case Obj(m) => forall k <- m :: (forall c <- k :: c in alphabet) && KeysOver(m[k], alphabet)
    case _ => true
  }

  predicate AsciiByte(c: byte) {
    c < 0x80
  }

  ghost function Ascii(): set<byte> {
    set c: byte | AsciiByte(c)
  }

  ghost function PlainBytes(): set<byte> {
    set c: byte | PlainByte(c)
  }

  // ---------------------------------------------------------------- key order

  /** Byte-wise lexicographic order: the order of sort.Strings, and on ASCII keys of Python's sorted and of
      section 3.2.3 of RFC 8785. */
  predicate Less(a: bytes, b: bytes) {
    b != [] && (a == [] || a[0] < b[0] || (a[0] == b[0] && Less(a[1..], b[1..])))
  }

  /** The first difference is at `i`, and `a` has the smaller byte there. */
  ghost predicate SmallerAt(a: bytes, b: bytes, i: nat) {
    i < |a| && i < |b| && a[..i] == b[..i] && a[i] < b[i]
  }

  /** Byte order without recursion: a proper prefix, or a smaller byte at the first difference. */
  ghost predicate ByteLess(a: bytes, b: bytes) {
    (a <= b && a != b) || exists i :: SmallerAt(a, b, i)
  }

  lemma {:induction false} LessIsByteLess(a: bytes, b: bytes)
    ensures Less(a, b) <==> ByteLess(a, b)
  {
    if a != [] && b != [] {
      if a[0] == b[0] {
        LessIsByteLess(a[1..], b[1..]);
        ByteLessTail(a, b);
      } else if a[0] < b[0] {
        assert SmallerAt(a, b, 0);
      } else {
        assert forall i :: 0 < i <= |a| && i <= |b| ==> a[..i][0] != b[..i][0];
      }
    } else {
      assert b != [] ==> [] <= b;
    }
  }

  lemma ByteLessTail(a: bytes, b: bytes)
    requires a != [] && b != [] && a[0] == b[0]
    ensures ByteLess(a, b) <==> ByteLess(a[1..], b[1..])
  {
    var s, t := a[1..], b[1..];
    assert a == [a[0]] + s && b == [b[0]] + t;
    forall i: nat ensures SmallerAt(s, t, i) <==> SmallerAt(a, b, i + 1) {
      if i < |s| && i < |t| {
        assert a[..i + 1] == [a[0]] + s[..i] && b[..i + 1] == [b[0]] + t[..i];
        assert a[..i + 1][1..] == s[..i] && b[..i + 1][1..] == t[..i];
      }
    }
    assert s <= t <==> a <= b;
    if exists i: nat :: SmallerAt(a, b, i) {
      var i: nat :| SmallerAt(a, b, i);
      assert i > 0;
      assert SmallerAt(s, t, i - 1);
    }
    if exists i: nat :: SmallerAt(s, t, i) {
      var i: nat :| SmallerAt(s, t, i);
      assert SmallerAt(a, b, i + 1);
    }
  }

  lemma {:induction false} LessTotal(a: bytes, b: bytes)
    ensures !(Less(a, b) && Less(b, a))
    ensures Less(a, b) || Less(b, a) || a == b
  {
    if a != [] && b != [] && a[0] == b[0] {
      LessTotal(a[1..], b[1..]);
      assert a == [a[0]] + a[1..] && b == [b[0]] + b[1..];
    }
  }

  lemma {:induction false} LessTransitive(a: bytes, b: bytes, c: bytes)
    requires Less(a, b) && Less(b, c)
    ensures Less(a, c)
  {
    if a != [] && a[0] == b[0] == c[0] {
      LessTransitive(a[1..], b[1..], c[1..]);
    }
  }

  ghost predicate Ascending(ks: seq<bytes>) {
    forall i, j :: 0 <= i < j < |ks| ==> Less(ks[i], ks[j])
  }

  function Insert(k: bytes, ks: seq<bytes>): (r: seq<bytes>)
    ensures |r| == |ks| + 1
  {
    if ks == [] || Less(k, ks[0]) then [k] + ks else [ks[0]] + Insert(k, ks[1..])
  }

  lemma {:induction false} InsertElements(k: bytes, ks: seq<bytes>)
    ensures forall x :: x in Insert(k, ks) <==> x == k || x in ks
  {
    if ks != [] && !Less(k, ks[0]) {
      InsertElements(k, ks[1..]);
    }
  }

  lemma {:induction false} InsertAscends(k: bytes, ks: seq<bytes>)
    requires Ascending(ks) && k !in ks
    ensures Ascending(Insert(k, ks))
  {
    var r := Insert(k, ks);
    if ks == [] {
    } else if Less(k, ks[0]) {
      forall j | 0 < j < |r| ensures Less(k, r[j]) {
        if j > 1 { LessTransitive(k, ks[0], ks[j - 1]); }
      }
    } else {
      LessTotal(k, ks[0]);
      InsertAscends(k, ks[1..]);
      InsertElements(k, ks[1..]);
      forall j | 0 < j < |r| ensures Less(ks[0], r[j]) {
        assert r[j] in Insert(k, ks[1..]);
        if r[j] != k {
          var i :| 0 <= i < |ks[1..]| && ks[1..][i] == r[j];
        }
      }
    }
  }

  /** sort.Strings and Python's sorted, on distinct keys. */
  function Sorted(ks: seq<bytes>): seq<bytes> {
    if ks == [] then [] else Insert(ks[|ks| - 1], Sorted(ks[..|ks| - 1]))
  }

  ghost predicate NoRepeats(ks: seq<bytes>) {
    forall i, j :: 0 <= i < j < |ks| ==> ks[i] != ks[j]
  }

  lemma {:induction false} SortedAscends(ks: seq<bytes>)
    requires NoRepeats(ks)
    ensures Ascending(Sorted(ks)) && forall x :: x in Sorted(ks) <==> x in ks
  {
    if ks != [] {
      var front, k := ks[..|ks| - 1], ks[|ks| - 1];
      SortedAscends(front);
      assert ks == front + [k] && k !in front;
      InsertAscends(k, Sorted(front));
      InsertElements(k, Sorted(front));
    }
  }

  /** The keys of a set in ascending order. */
  ghost function SortedKeys(s: set<bytes>): (ks: seq<bytes>)
    ensures Ascending(ks) && forall x :: x in ks <==> x in s
  {
    if s == {} then []
    else
      var k :| k in s;
      var ks := SortedKeys(s - {k});
      InsertAscends(k, ks);
      InsertElements(k, ks);
      Insert(k, ks)
  }

  /** A set has only one ascending listing. */
  lemma {:induction false} AscendingUnique(a: seq<bytes>, b: seq<bytes>)
    requires Ascending(a) && Ascending(b) && forall x :: x in a <==> x in b
    ensures a == b
  {
    if a == [] {
      if b != [] { HasElement(b); }
    } else {
      assert a[0] in b && b != [] && b[0] in a;
      FirstIsLeast(a, b[0]);
      FirstIsLeast(b, a[0]);
      LessTotal(a[0], b[0]);
      TailElements(a);
      TailElements(b);
      AscendingUnique(a[1..], b[1..]);
      assert a == [a[0]] + a[1..] && b == [b[0]] + b[1..];
    }
  }

  lemma HasElement(b: seq<bytes>)
    requires b != []
    ensures exists x :: x in b
  {
    assert b[0] in b;
  }

  lemma FirstIsLeast(a: seq<bytes>, x: bytes)
    requires Ascending(a) && x in a
    ensures x == a[0] || Less(a[0], x)
  {
  }

  lemma TailElements(a: seq<bytes>)
    requires Ascending(a) && a != []
    ensures Ascending(a[1..]) && forall x :: x in a[1..] <==> x in a && x != a[0]
  {
    LessTotal(a[0], a[0]);
    forall x | x in a[1..] ensures x in a && x != a[0] {
      var i :| 0 <= i < |a[1..]| && a[1..][i] == x;
      assert Less(a[0], a[i + 1]);
    }
  }

  // ---------------------------------------------------------------- the canonical text

  function Quoted(s: bytes): bytes {
    [QUOTE] + s + [QUOTE]
  }

  function IntText(n: int): bytes {
    if n < 0 then [MINUS] + Digits(-n) else Digits(n)
  }

  predicate IsLeaf(v: Json) {
    !v.Arr? && !v.Obj?
  }

  /** What json.Marshal and json.dumps print for a leaf with plain text. */
  function Leaf(v: Json): bytes
    requires IsLeaf(v)
  {
    match v
    case Null => NULL_TEXT
    case Bool(b) => if b then TRUE_TEXT else FALSE_TEXT
    case Int(n) => IntText(n)
    case Str(s) => Quoted(s)
  }

  /** How json.dumps prints one ASCII character of a string. */
  function PyEscape(c: byte): (r: bytes)
    ensures PlainByte(c) ==> r == [c]
    ensures !PlainByte(c) && c < 0x80 ==> |r| >= 2
  {
    if c == QUOTE || c == BACKSLASH then [BACKSLASH, c]
    else if c == 0x0a then [BACKSLASH, 0x6e]
    else if c == 0x0d then [BACKSLASH, 0x72]
    else if c == 0x09 then [BACKSLASH, 0x74]
    else if c == 0x0c then [BACKSLASH, 0x66]
    else if c == 0x08 then [BACKSLASH, 0x62]
    else if c < 0x20 || c == 0x7f then [BACKSLASH, 0x75, 0x30, 0x30, HexDigit(c / 16), HexDigit(c % 16)]
    else [c]
  }

  function PyEscapeAll(s: bytes): bytes {
    if s == [] then [] else PyEscape(s[0]) + PyEscapeAll(s[1..])
  }

  /** The reader's side: what a JSON string body stands for (section 7 of RFC 8259), for code points below 256. */
  function Unescaped(t: bytes): Option<bytes> {
    if t == [] then Some([])
    else if t[0] == QUOTE || t[0] < 0x20 then None
    else if t[0] != BACKSLASH then Prefixed(t[0], Unescaped(t[1..]))
    else if |t| < 2 then None
    else if t[1] == QUOTE || t[1] == BACKSLASH || t[1] == 0x2f then Prefixed(t[1], Unescaped(t[2..]))
    else if t[1] == 0x62 then Prefixed(0x08, Unescaped(t[2..]))
    else if t[1] == 0x66 then Prefixed(0x0c, Unescaped(t[2..]))
    else if t[1] == 0x6e then Prefixed(0x0a, Unescaped(t[2..]))
    else if t[1] == 0x72 then Prefixed(0x0d, Unescaped(t[2..]))
    else if t[1] == 0x74 then Prefixed(0x09, Unescaped(t[2..]))
    else if t[1] == 0x75 && |t| >= 6 && t[2] == 0x30 && t[3] == 0x30 && IsLowerHexDigit(t[4]) && IsLowerHexDigit(t[5])
    then Prefixed((16 * Nibble(t[4]) + Nibble(t[5])) % 256, Unescaped(t[6..]))
    else None
  }

  function Prefixed(c: byte, rest: Option<bytes>): Option<bytes> {
    if rest.None? then None else Some([c] + rest.value)
  }

  lemma UnescapedChar(c: byte, rest: bytes)
    requires AsciiByte(c)
    ensures Unescaped(PyEscape(c) + rest) == Prefixed(c, Unescaped(rest))
  {
    var e := PyEscape(c);
    var t := e + rest;
    assert t[|e|..] == rest && t[0] == e[0];
    if |e| > 1 { assert t[1] == e[1]; }
    if |e| == 6 {
      assert t[2] == e[2] && t[3] == e[3] && t[4] == e[4] && t[5] == e[5];
      NibbleOfDigit(c / 16);
      NibbleOfDigit(c % 16);
    }
  }

  /** A JSON reader gets back every ASCII key Python writes. */
  lemma {:induction false} EscapedReadsBack(s: bytes)
    requires forall c <- s :: AsciiByte(c)
    ensures Unescaped(PyEscapeAll(s)) == Some(s)
  {
    if s != [] {
      hide Unescaped, PyEscape;
      UnescapedChar(s[0], PyEscapeAll(s[1..]));
      EscapedReadsBack(s[1..]);
      assert s == [s[0]] + s[1..];
    } else {
      assert Unescaped([]) == Some([]);
    }
  }

  /** Go writes a key raw between quotes; Python prints it with json.dumps. */
  datatype Lang = Go | Python

  function KeyBody(k: bytes, lang: Lang): bytes {
    if lang.Go? then k else PyEscapeAll(k)
  }

  function KeyText(k: bytes, lang: Lang): bytes {
    Quoted(KeyBody(k, lang)) + [COLON]
  }

  /** Reference form: one text per value, members in ascending key order. */
  ghost function Canon(v: Json, lang: Lang): bytes
    decreases v
  {
    match v
    case Arr(_) => [OPEN_ARR] + ItemsFrom(v, 0, lang)
    case Obj(m) => [OPEN_OBJ] + MembersFrom(v, SortedKeys(m.Keys), true, lang)
    case _ => Leaf(v)
  }

  /** Items `i` and later, with their separators and the closing bracket. */
  ghost function ItemsFrom(v: Json, i: nat, lang: Lang): bytes
    requires v.Arr? && i <= |v.items|
    decreases v, |v.items| - i
  {
    if i == |v.items| then [CLOSE_ARR]
    else ((if i > 0 then [COMMA] else []) + Canon(v.items[i], lang)) + ItemsFrom(v, i + 1, lang)
  }

  /** The members with keys `ks`, with their separators and the closing brace. */
  ghost function MembersFrom(v: Json, ks: seq<bytes>, first: bool, lang: Lang): bytes
    requires v.Obj? && forall k <- ks :: k in v.members
    decreases v, |ks|
  {
    if ks == [] then [CLOSE_OBJ]
    else ((if first then [] else [COMMA]) + KeyText(ks[0], lang) + Canon(v.members[ks[0]], lang))
         + MembersFrom(v, ks[1..], false, lang)
  }

  // ---------------------------------------------------------------- what the text looks like

  function Code(c: char): byte
    requires c as int < 0x80
  {
    c as int
  }

  /** ASCII text as bytes. */
  function Text(s: string): (t: bytes)
    requires forall c <- s :: c as int < 0x80
    ensures |t| == |s| && forall i :: 0 <= i < |s| ==> t[i] == s[i] as int
  {
    seq(|s|, i requires 0 <= i < |s| => assert s[i] in s; Code(s[i]))
  }

  lemma Punctuation()
    ensures [QUOTE] == Text("\"") && [COMMA] == Text(",") && [COLON] == Text(":") && [MINUS] == Text("-")
    ensures [OPEN_ARR] == Text("[") && [CLOSE_ARR] == Text("]") && [OPEN_OBJ] == Text("{") && [CLOSE_OBJ] == Text("}")
  {
  }

  lemma LeafTexts()
    ensures Leaf(Null) == Text("null") && Leaf(Bool(true)) == Text("true") && Leaf(Bool(false)) == Text("false")
    ensures forall n: nat :: Leaf(Int(n)) == Digits(n)
    ensures forall n: int :: n < 0 ==> Leaf(Int(n)) == Text("-") + Digits(-n)
    ensures forall s: PlainString :: Leaf(Str(s)) == Text("\"") + s + Text("\"")
  {
    hide Digits;
    Punctuation();
  }

  /** b",".join(parts) */
  function Joined(parts: seq<bytes>): bytes {
    if parts == [] then []
    else if |parts| == 1 then parts[0]
    else Joined(parts[..|parts| - 1]) + [COMMA] + parts[|parts| - 1]
  }

  lemma {:induction false} JoinedCons(p: bytes, parts: seq<bytes>)
    ensures Joined([p] + parts) == if parts == [] then p else p + [COMMA] + Joined(parts)
  {
    var all := [p] + parts;
    if parts != [] {
      var front, last := parts[..|parts| - 1], parts[|parts| - 1];
      JoinedCons(p, front);
      assert all[..|all| - 1] == [p] + front;
      if front != [] {
        assert (p + [COMMA] + Joined(front)) + [COMMA] + last == p + [COMMA] + (Joined(front) + [COMMA] + last);
      }
    }
  }

  ghost function MemberTexts(v: Json, ks: seq<bytes>, lang: Lang): (r: seq<bytes>)
    requires v.Obj? && forall k <- ks :: k in v.members
    ensures |r| == |ks|
    ensures forall i :: 0 <= i < |ks| ==> r[i] == KeyText(ks[i], lang) + Canon(v.members[ks[i]], lang)
  {
    seq(|ks|, i requires 0 <= i < |ks| => KeyText(ks[i], lang) + Canon(v.members[ks[i]], lang))
  }

  lemma {:induction false} MembersJoined(v: Json, ks: seq<bytes>, first: bool, lang: Lang)
    requires v.Obj? && forall k <- ks :: k in v.members
    ensures MembersFrom(v, ks, first, lang) ==
            (if ks == [] then [] else (if first then [] else [COMMA]) + Joined(MemberTexts(v, ks, lang))) + [CLOSE_OBJ]
    decreases |ks|
  {
    hide Canon, KeyText, Joined;
    if ks != [] {
      var sep: bytes := if first then [] else [COMMA];
      var p, rest := KeyText(ks[0], lang) + Canon(v.members[ks[0]], lang), MemberTexts(v, ks[1..], lang);
      MembersJoined(v, ks[1..], false, lang);
      assert MemberTexts(v, ks, lang) == [p] + rest;
      JoinedCons(p, rest);
      JoinRegroup(sep, KeyText(ks[0], lang), Canon(v.members[ks[0]], lang), Joined(rest));
    }
  }

  lemma JoinRegroup(sep: bytes, key: bytes, val: bytes, rest: bytes)
    ensures (sep + key + val) + ([] + [CLOSE_OBJ]) == (sep + (key + val)) + [CLOSE_OBJ]
    ensures (sep + key + val) + (([COMMA] + rest) + [CLOSE_OBJ]) == (sep + (key + val + [COMMA] + rest)) + [CLOSE_OBJ]
  {
  }

  /** An object prints as its members, joined by commas, their keys in ascending byte order. */
  lemma ObjectText(m: map<bytes, Json>, lang: Lang)
    ensures var ks := SortedKeys(m.Keys);
      && (forall k :: k in ks <==> k in m)
      && (forall i, j :: 0 <= i < j < |ks| ==> ByteLess(ks[i], ks[j]))
      && Canon(Obj(m), lang) == Text("{") + Joined(MemberTexts(Obj(m), ks, lang)) + Text("}")
  {
    hide Less, ByteLess, Joined, KeyText, Canon, MemberTexts;
    var ks := SortedKeys(m.Keys);
    KeysAscend(ks);
    ObjectJoined(m, lang);
    Punctuation();
  }

  lemma KeysAscend(ks: seq<bytes>)
    requires Ascending(ks)
    ensures forall i, j :: 0 <= i < j < |ks| ==> ByteLess(ks[i], ks[j])
  {
    hide Less, ByteLess;
    forall i, j | 0 <= i < j < |ks| ensures ByteLess(ks[i], ks[j]) {
      LessIsByteLess(ks[i], ks[j]);
    }
  }

  lemma ObjectJoined(m: map<bytes, Json>, lang: Lang)
    ensures var ks := SortedKeys(m.Keys);
      Canon(Obj(m), lang) == [OPEN_OBJ] + Joined(MemberTexts(Obj(m), ks, lang)) + [CLOSE_OBJ]
  {
    hide Less, Joined, KeyText, MemberTexts;
    var ks := SortedKeys(m.Keys);
    MembersJoined(Obj(m), ks, true, lang);
    var joined := Joined(MemberTexts(Obj(m), ks, lang));
    JoinedNothing(MemberTexts(Obj(m), ks, lang));
    hide MembersFrom;
    assert [OPEN_OBJ] + (([] + joined) + [CLOSE_OBJ]) == [OPEN_OBJ] + joined + [CLOSE_OBJ];
  }

  lemma KeyTexts(k: bytes)
    ensures KeyText(k, Go) == Text("\"") + k + Text("\":")
    ensures KeyText(k, Python) == Text("\"") + PyEscapeAll(k) + Text("\":")
  {
    hide PyEscapeAll;
    Punctuation();
    assert Text("\":") == [QUOTE] + [COLON];
  }

  ghost function ItemTexts(items: seq<Json>, lang: Lang): (r: seq<bytes>)
    ensures |r| == |items| && forall i :: 0 <= i < |items| ==> r[i] == Canon(items[i], lang)
  {
    seq(|items|, i requires 0 <= i < |items| => Canon(items[i], lang))
  }

  lemma {:induction false} ItemsJoined(v: Json, i: nat, lang: Lang)
    requires v.Arr? && i <= |v.items|
    ensures ItemsFrom(v, i, lang) ==
            (if i == |v.items| then [] else (if i > 0 then [COMMA] else []) + Joined(ItemTexts(v.items[i..], lang)))
            + [CLOSE_ARR]
    decreases |v.items| - i
  {
    hide Canon, Joined;
    if i < |v.items| {
      var sep: bytes := if i > 0 then [COMMA] else [];
      var p, rest := Canon(v.items[i], lang), ItemTexts(v.items[i + 1..], lang);
      ItemsJoined(v, i + 1, lang);
      assert ItemTexts(v.items[i..], lang) == [p] + rest;
      JoinedCons(p, rest);
      ListRegroup(sep, p, Joined(rest));
    }
  }

  lemma ListRegroup(sep: bytes, item: bytes, rest: bytes)
    ensures (sep + item) + ([] + [CLOSE_ARR]) == (sep + item) + [CLOSE_ARR]
    ensures (sep + item) + (([COMMA] + rest) + [CLOSE_ARR]) == (sep + (item + [COMMA] + rest)) + [CLOSE_ARR]
  {
  }

  /** A list prints as its items in order, joined by commas. */
  lemma ListText(items: seq<Json>, lang: Lang)
    ensures Canon(Arr(items), lang) == Text("[") + Joined(ItemTexts(items, lang)) + Text("]")
  {
    ListJoined(items, lang);
    hide Canon, Joined, ItemTexts;
    Punctuation();
  }

  lemma ListJoined(items: seq<Json>, lang: Lang)
    ensures Canon(Arr(items), lang) == [OPEN_ARR] + Joined(ItemTexts(items, lang)) + [CLOSE_ARR]
  {
    hide Joined;
    ItemsJoined(Arr(items), 0, lang);
    assert items[0..] == items;
    var joined := Joined(ItemTexts(items, lang));
    JoinedNothing(ItemTexts(items, lang));
    hide ItemsFrom;
    assert [OPEN_ARR] + (([] + joined) + [CLOSE_ARR]) == [OPEN_ARR] + joined + [CLOSE_ARR];
  }

  lemma JoinedNothing(parts: seq<bytes>)
    ensures parts == [] ==> Joined(parts) == []
  {
  }

  lemma Assoc(a: bytes, b: bytes, c: bytes)
    ensures a + (b + c) == a + b + c
  {
  }

  lemma MembersStep(text: bytes, v: Json, keys: seq<bytes>, i: nat, lang: Lang)
    requires v.Obj? && i < |keys| && forall k <- keys :: k in v.members
    ensures text + MembersFrom(v, keys[i..], i == 0, lang)
         == (text + ((if i == 0 then [] else [COMMA]) + KeyText(keys[i], lang) + Canon(v.members[keys[i]], lang)))
            + MembersFrom(v, keys[i + 1..], false, lang)
  {
    hide Canon, KeyText;
    assert keys[i..][0] == keys[i] && keys[i..][1..] == keys[i + 1..];
    Assoc(text, (if i == 0 then [] else [COMMA]) + KeyText(keys[i], lang) + Canon(v.members[keys[i]], lang),
          MembersFrom(v, keys[i + 1..], false, lang));
  }

  lemma ItemsStep(text: bytes, v: Json, i: nat, lang: Lang)
    requires v.Arr? && i < |v.items|
    ensures text + ItemsFrom(v, i, lang)
         == (text + ((if i > 0 then [COMMA] else []) + Canon(v.items[i], lang))) + ItemsFrom(v, i + 1, lang)
  {
    hide Canon;
    Assoc(text, (if i > 0 then [COMMA] else []) + Canon(v.items[i], lang), ItemsFrom(v, i + 1, lang));
  }

  // ---------------------------------------------------------------- Go: loops over a builder

  /** Encode, which is also the dispatch on a child's type inside encodeMap and encodeSlice. */
  method Encode(v: Json) returns (text: bytes)
    ensures text == Canon(v, Go)
    decreases v, 1
  {
    match v
    case Obj(m) => text := EncodeMap(m);
    case Arr(xs) => text := EncodeSlice(xs);
    case _ => text := Leaf(v);
  }

  /** Keys of a Go map in whatever order the runtime ranges over it. */
  method CollectKeys(m: map<bytes, Json>) returns (keys: seq<bytes>)
    ensures NoRepeats(keys) && forall k :: k in keys <==> k in m
  {
    keys := [];
    var todo := m.Keys;
    while todo != {}
      invariant todo <= m.Keys && NoRepeats(keys)
      invariant forall k :: k in keys <==> k in m && k !in todo
      decreases |todo|
    {
      var k :| k in todo;
      keys := keys + [k];
      todo := todo - {k};
    }
  }

  /** sort.Strings over the collected keys, and sorted in Python: the one ascending listing. */
  method OrderedKeys(m: map<bytes, Json>) returns (keys: seq<bytes>)
    ensures keys == SortedKeys(m.Keys)
  {
    keys := CollectKeys(m);
    SortedAscends(keys);
    keys := Sorted(keys);
    AscendingUnique(keys, SortedKeys(m.Keys));
  }

  method EncodeMap(m: map<bytes, Json>) returns (text: bytes)
    ensures text == Canon(Obj(m), Go)
    decreases Obj(m), 0
  {
    hide Canon, MembersFrom, SortedKeys, Ascending;
    ghost var v := Obj(m);
    var keys := OrderedKeys(m);
    ghost var goal := [OPEN_OBJ] + MembersFrom(v, keys, true, Go);
    var sb := [OPEN_OBJ];
    assert keys[0..] == keys;
    for i := 0 to |keys|
      invariant goal == sb + MembersFrom(v, keys[i..], i == 0, Go)
    {
      MembersStep(sb, v, keys, i, Go);
      ghost var before := sb;
      var k := keys[i];
      if i > 0 {
        sb := sb + [COMMA];
      }
      sb := sb + [QUOTE];
      sb := sb + k;
      sb := sb + [QUOTE];
      sb := sb + [COLON];
      KeyAppended(before, if i == 0 then [] else [COMMA], k);
      var sub := Encode(m[k]);
      Assoc(before, (if i == 0 then [] else [COMMA]) + KeyText(k, Go), sub);
      sb := sb + sub;
    }
    text := sb + [CLOSE_OBJ];
    ObjText(v, keys, Go);
  }

  lemma KeyAppended(text: bytes, comma: bytes, k: bytes)
    ensures text + [] == text
    ensures text + comma + [QUOTE] + k + [QUOTE] + [COLON] == text + (comma + KeyText(k, Go))
  {
  }

  lemma ObjText(v: Json, keys: seq<bytes>, lang: Lang)
    requires v.Obj? && keys == SortedKeys(v.members.Keys)
    ensures Canon(v, lang) == [OPEN_OBJ] + MembersFrom(v, keys, true, lang)
    ensures MembersFrom(v, keys[|keys|..], keys == [], lang) == [CLOSE_OBJ]
  {
  }

  lemma ArrText(s: seq<Json>, lang: Lang)
    ensures Canon(Arr(s), lang) == [OPEN_ARR] + ItemsFrom(Arr(s), 0, lang)
    ensures ItemsFrom(Arr(s), |s|, lang) == [CLOSE_ARR]
  {
  }

  method EncodeSlice(s: seq<Json>) returns (text: bytes)
    ensures text == Canon(Arr(s), Go)
    decreases Arr(s), 0
  {
    hide Canon, ItemsFrom;
    var sb := [OPEN_ARR];
    ArrText(s, Go);
    for i := 0 to |s|
      invariant Canon(Arr(s), Go) == sb + ItemsFrom(Arr(s), i, Go)
    {
      ItemsStep(sb, Arr(s), i, Go);
      ghost var before := sb;
      var v := s[i];
      if i > 0 {
        sb := sb + [COMMA];
      }
      var sub := Encode(v);
      sb := sb + sub;
      assert sb == before + ((if i > 0 then [COMMA] else []) + Canon(v, Go));
    }
    text := sb + [CLOSE_ARR];
  }

  // ---------------------------------------------------------------- Python: parts joined by commas

  method PyEncode(v: Json) returns (text: bytes)
    requires KeysOver(v, Ascii())
    ensures text == Canon(v, Python)
    decreases v, 1
  {
    match v
    case Obj(m) => text := PyEncodeDict(m);
    case Arr(items) => text := PyEncodeList(items);
    case _ => text := Leaf(v);
  }

  /** The dict branch of encode. */
  method PyEncodeDict(m: map<bytes, Json>) returns (text: bytes)
    requires KeysOver(Obj(m), Ascii())
    ensures text == Canon(Obj(m), Python)
    decreases Obj(m), 0
  {
    hide Canon, MembersFrom, SortedKeys, Ascending, Joined, KeyText, AsciiByte;
    ghost var v := Obj(m);
    var keys := OrderedKeys(m);
    ghost var goal := [OPEN_OBJ] + MembersFrom(v, keys, true, Python);
    var parts: seq<bytes> := [];
    JoinedNone([OPEN_OBJ]);
    assert keys[0..] == keys;
    for i := 0 to |keys|
      invariant |parts| == i
      invariant goal == [OPEN_OBJ] + Joined(parts) + MembersFrom(v, keys[i..], i == 0, Python)
    {
      MembersStep([OPEN_OBJ] + Joined(parts), v, keys, i, Python);
      var k := keys[i];
      var keyText := Quoted(PyEscapeAll(k));
      var valText := PyEncodeValue(m[k]);
      KeyTextIs(k);
      PartJoined(parts, keyText + [COLON], valText);
      parts := parts + [keyText + [COLON] + valText];
    }
    text := [OPEN_OBJ] + Joined(parts) + [CLOSE_OBJ];
    ObjText(v, keys, Python);
  }

  method PyEncodeValue(v: Json) returns (text: bytes)
    requires KeysOver(v, Ascii())
    ensures text == Canon(v, Python)
    decreases v, 2
  {
    match v
    case Obj(_) => text := PyEncode(v);
    case Arr(items) => text := PyEncodeList(items);
    case _ => text := Leaf(v);
  }

  method PyEncodeList(items: seq<Json>) returns (text: bytes)
    requires KeysOver(Arr(items), Ascii())
    ensures text == Canon(Arr(items), Python)
    decreases Arr(items), 0
  {
    var parts: seq<bytes> := [];
    for i := 0 to |items|
      invariant |parts| == i
      invariant Canon(Arr(items), Python) == [OPEN_ARR] + Joined(parts) + ItemsFrom(Arr(items), i, Python)
    {
      hide Canon, MembersFrom, ItemsFrom, Joined;
      ItemsStep([OPEN_ARR] + Joined(parts), Arr(items), i, Python);
      var part := PyEncodeValue(items[i]);
      JoinedSnoc(parts, part);
      AssocPart([OPEN_ARR], Joined(parts), if i > 0 then [COMMA] else [], [], Canon(items[i], Python));
      parts := parts + [part];
    }
    text := [OPEN_ARR] + Joined(parts) + [CLOSE_ARR];
  }

  lemma AssocPart(open: bytes, done: bytes, comma: bytes, key: bytes, val: bytes)
    ensures open + done + (comma + key + val) == open + (done + comma + (key + val))
    ensures [] + val == val && comma + [] == comma
  {
    assert comma + key + val == comma + (key + val);
  }

  lemma PartJoined(parts: seq<bytes>, key: bytes, val: bytes)
    ensures [OPEN_OBJ] + Joined(parts + [key + val])
         == [OPEN_OBJ] + Joined(parts) + ((if parts == [] then [] else [COMMA]) + key + val)
  {
    hide Joined;
    JoinedSnoc(parts, key + val);
    AssocPart([OPEN_OBJ], Joined(parts), if parts == [] then [] else [COMMA], key, val);
  }

  lemma KeyTextIs(k: bytes)
    ensures KeyText(k, Python) == Quoted(PyEscapeAll(k)) + [COLON]
  {
  }

  lemma JoinedNone(open: bytes)
    ensures open + Joined([]) == open
  {
  }

  lemma JoinedSnoc(parts: seq<bytes>, p: bytes)
    ensures Joined(parts + [p]) == Joined(parts) + (if parts == [] then [] else [COMMA]) + p
  {
    assert (parts + [p])[..|parts|] == parts;
  }

  // ---------------------------------------------------------------- when the two languages agree

  lemma {:induction false} EscapesLengthenText(s: bytes)
    requires forall c <- s :: AsciiByte(c)
    ensures |PyEscapeAll(s)| >= |s|
    ensures |PyEscapeAll(s)| == |s| <==> forall c <- s :: PlainByte(c)
    ensures (forall c <- s :: PlainByte(c)) ==> PyEscapeAll(s) == s
  {
    if s != [] {
      assert s[0] in s && forall c <- s :: c == s[0] || c in s[1..];
      EscapesLengthenText(s[1..]);
    }
  }

  /** Escaped keys only ever make the text longer, and do so as soon as one key needs an escape. */
  lemma {:induction false} PythonIsNotShorter(v: Json)
    requires KeysOver(v, Ascii())
    ensures |Canon(v, Python)| >= |Canon(v, Go)|
    ensures |Canon(v, Python)| == |Canon(v, Go)| <==> KeysOver(v, PlainBytes())
    ensures KeysOver(v, PlainBytes()) ==> Canon(v, Python) == Canon(v, Go)
    decreases v
  {
    match v
    case Arr(items) =>
      ItemsNotShorter(v, 0);
      assert PlainFrom(v, 0) <==> KeysOver(v, PlainBytes());
    case Obj(m) =>
      var ks := SortedKeys(m.Keys);
      MembersNotShorter(v, ks, true);
      assert AllPlain(v, ks) <==> KeysOver(v, PlainBytes());
    case _ =>
  }

  ghost predicate KeyPlain(v: Json, k: bytes)
    requires v.Obj? && k in v.members
  {
    (forall c <- k :: c in PlainBytes()) && KeysOver(v.members[k], PlainBytes())
  }

  lemma {:induction false} ItemsNotShorter(v: Json, i: nat)
    requires v.Arr? && i <= |v.items| && KeysOver(v, Ascii())
    ensures var go, py := ItemsFrom(v, i, Go), ItemsFrom(v, i, Python);
      && |py| >= |go| && (|py| == |go| <==> PlainFrom(v, i)) && (PlainFrom(v, i) ==> py == go)
    decreases v, |v.items| - i
  {
    if i < |v.items| {
      hide Canon;
      PythonIsNotShorter(v.items[i]);
      ItemsNotShorter(v, i + 1);
    }
  }

  ghost predicate PlainFrom(v: Json, i: nat)
    requires v.Arr?
  {
    forall j :: i <= j < |v.items| ==> KeysOver(v.items[j], PlainBytes())
  }

  ghost predicate AllPlain(v: Json, ks: seq<bytes>)
    requires v.Obj? && forall k <- ks :: k in v.members
  {
    forall k <- ks :: KeyPlain(v, k)
  }

  lemma AllPlainCons(v: Json, ks: seq<bytes>)
    requires v.Obj? && ks != [] && forall k <- ks :: k in v.members
    ensures AllPlain(v, ks) <==> KeyPlain(v, ks[0]) && AllPlain(v, ks[1..])
  {
    hide KeyPlain;
    assert ks == [ks[0]] + ks[1..];
  }

  lemma KeyTextNotShorter(k: bytes)
    requires forall c <- k :: AsciiByte(c)
    ensures var go, py := KeyText(k, Go), KeyText(k, Python);
      && |py| >= |go| && (|py| == |go| <==> forall c <- k :: c in PlainBytes())
      && ((forall c <- k :: c in PlainBytes()) ==> py == go)
  {
    hide PyEscapeAll, PlainByte, AsciiByte;
    EscapesLengthenText(k);
    assert (forall c <- k :: c in PlainBytes()) <==> forall c <- k :: PlainByte(c);
  }

  lemma MemberNotShorter(v: Json, k: bytes)
    requires v.Obj? && k in v.members && KeysOver(v, Ascii())
    ensures var x := v.members[k];
      var go, py := KeyText(k, Go) + Canon(x, Go), KeyText(k, Python) + Canon(x, Python);
      && |py| >= |go| && (|py| == |go| <==> KeyPlain(v, k))
      && (KeyPlain(v, k) ==> KeyText(k, Python) == KeyText(k, Go) && Canon(x, Python) == Canon(x, Go))
    decreases v, 0
  {
    MemberKeysOver(v, k);
    hide Canon, KeyText, KeysOver, PlainBytes, AsciiByte;
    PythonIsNotShorter(v.members[k]);
    KeyTextNotShorter(k);
  }

  lemma {:induction false} MembersNotShorter(v: Json, ks: seq<bytes>, first: bool)
    requires v.Obj? && (forall k <- ks :: k in v.members) && KeysOver(v, Ascii())
    ensures var go, py := MembersFrom(v, ks, first, Go), MembersFrom(v, ks, first, Python);
      && |py| >= |go| && (|py| == |go| <==> AllPlain(v, ks)) && (AllPlain(v, ks) ==> py == go)
    decreases v, |ks|
  {
    if ks != [] {
      hide Canon, KeyText, KeysOver, KeyPlain, AllPlain;
      MemberNotShorter(v, ks[0]);
      AllPlainCons(v, ks);
      MembersNotShorter(v, ks[1..], false);
    }
  }

  lemma MemberKeysOver(v: Json, k: bytes)
    requires v.Obj? && k in v.members && KeysOver(v, Ascii())
    ensures KeysOver(v.members[k], Ascii()) && forall c <- k :: AsciiByte(c)
  {
    hide AsciiByte;
    forall c | c in k ensures AsciiByte(c) {
      assert c in Ascii();
    }
  }

  /** Both languages print the same bytes exactly when no key, at any depth, needs an escape. */
  lemma LanguagesAgreeIff(v: Json)
    requires KeysOver(v, Ascii())
    ensures Canon(v, Go) == Canon(v, Python) <==> KeysOver(v, PlainBytes())
  {
    PythonIsNotShorter(v);
  }
}
