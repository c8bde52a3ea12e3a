/** The canonical text determines the value: what a reader of the bytes can tell
    (pkg/contract/contract.go). */
module CanonicalInjective {
  import opened Bytes
  import opened Decimal
  import opened Canonical

  /** A key whose end a reader can find: Go writes it raw, so it must not hold a quote; Python escapes ASCII text. */
  predicate ReadableKey(k: bytes, lang: Lang) {
    if lang.Go? then QUOTE !in k else forall c <- k :: AsciiByte(c)
  }

  /** All keys are readable, at any depth. */
  ghost predicate Readable(v: Json, lang: Lang) {
    match v
    case Arr(items) => forall x <- items :: Readable(x, lang)
    case Obj(m) => forall k <- m :: ReadableKey(k, lang) && Readable(m[k], lang)
    case _ => true
  }

  /** What may follow a value inside a text. */
  predicate Delimits(x: bytes) {
    x == [] || x[0] in {COMMA, CLOSE_ARR, CLOSE_OBJ}
  }

  /** The kind of value a text begins with. */
  datatype Class = CNull | CTrue | CFalse | CNumber | CText | CArr | CObj | CNone

  function ClassOfByte(c: byte): Class {
    if c == 0x6e then CNull
    else if c == 0x74 then CTrue
    else if c == 0x66 then CFalse
    else if c == MINUS || IsDigit(c) then CNumber
    else if c == QUOTE then CText
    else if c == OPEN_ARR then CArr
    else if c == OPEN_OBJ then CObj
    else CNone
  }

  function ClassOf(v: Json): Class {
    match v
    case Null => CNull
    case Bool(b) => if b then CTrue else CFalse
    case Int(_) => CNumber
    case Str(_) => CText
    case Arr(_) => CArr
    case Obj(_) => CObj
  }

  /** The first byte of a text gives the kind of the value away. */
  lemma FirstByte(v: Json, lang: Lang)
    ensures Canon(v, lang) != [] && ClassOfByte(Canon(v, lang)[0]) == ClassOf(v) != CNone
  {
    if v.Int? {
      IntFirst(v.n);
    }
  }

  lemma IntFirst(n: int)
    ensures IntText(n) != [] && (n < 0 <==> IntText(n)[0] == MINUS)
    ensures n >= 0 ==> IsDigit(IntText(n)[0])
  {
    if n >= 0 { assert Digits(n)[0] in Digits(n); }
  }

  /** A run of digits ends where the digits end. */
  lemma CutDigits(a: bytes, x: bytes, b: bytes, y: bytes)
    requires a + x == b + y && Delimits(x) && Delimits(y)
    requires (forall c <- a :: IsDigit(c)) && (forall c <- b :: IsDigit(c))
    ensures a == b && x == y
  {
    var s, t := a + x, b + y;
    if |a| < |b| { DigitAt(b, y, |a|); }
    if |b| < |a| { DigitAt(a, x, |b|); }
    assert s[..|a|] == a && t[..|b|] == b && s[|a|..] == x && t[|b|..] == y;
  }

  lemma DigitAt(b: bytes, y: bytes, i: nat)
    requires i < |b| && forall c <- b :: IsDigit(c)
    ensures IsDigit((b + y)[i]) && !Delimits((b + y)[i..])
  {
    assert (b + y)[i] == b[i] && b[i] in b;
  }

  lemma CutInt(n: int, x: bytes, m: int, y: bytes)
    requires IntText(n) + x == IntText(m) + y && Delimits(x) && Delimits(y)
    ensures n == m && x == y
  {
    hide Digits;
    IntFirst(n);
    IntFirst(m);
    assert (IntText(n) + x)[0] == IntText(n)[0] && (IntText(m) + y)[0] == IntText(m)[0];
    if n < 0 {
      CutOpen(MINUS, Digits(-n), x, Digits(-m), y);
      CutDigits(Digits(-n), x, Digits(-m), y);
      DigitsInjective(-n, -m);
    } else {
      CutDigits(Digits(n), x, Digits(m), y);
      DigitsInjective(n, m);
    }
  }

  lemma CutOpen(open: byte, a: bytes, x: bytes, b: bytes, y: bytes)
    requires [open] + a + x == [open] + b + y
    ensures a + x == b + y
  {
    assert ([open] + a + x)[1..] == a + x && ([open] + b + y)[1..] == b + y;
  }

  /** Quoted text without quotes ends at its second quote. */
  lemma CutQuoted(a: bytes, x: bytes, b: bytes, y: bytes)
    requires Quoted(a) + x == Quoted(b) + y && QUOTE !in a && QUOTE !in b
    ensures a == b && x == y
  {
    var s, t := Quoted(a) + x, Quoted(b) + y;
    assert s[|a| + 1] == QUOTE && t[|b| + 1] == QUOTE;
    assert forall i :: 0 <= i < |a| ==> s[i + 1] == a[i];
    assert forall i :: 0 <= i < |b| ==> t[i + 1] == b[i];
    assert |a| == |b|;
    assert s[1..|a| + 1] == a && t[1..|b| + 1] == b && s[|a| + 2..] == x && t[|b| + 2..] == y;
  }

  /** The escapes of json.dumps form a prefix code, and none begins with a quote. */
  lemma CutEscape(c: byte, x: bytes, d: byte, y: bytes)
    requires AsciiByte(c) && AsciiByte(d) && PyEscape(c) + x == PyEscape(d) + y
    ensures c == d && x == y
  {
    var e, f := PyEscape(c), PyEscape(d);
    var s := e + x;
    assert s[0] == e[0] == f[0];
    assert |e| > 1 ==> s[1] == e[1];
    assert |f| > 1 ==> s[1] == f[1];
    assert |e| == 6 ==> s[4] == e[4] && s[5] == e[5];
    assert |f| == 6 ==> s[4] == f[4] && s[5] == f[5];
    HexDigitsDiffer(c / 16, d / 16);
    HexDigitsDiffer(c % 16, d % 16);
    assert c == d;
    CutSame(e, x, y);
  }

  lemma HexDigitsDiffer(i: nat, j: nat)
    requires i < 16 && j < 16
    ensures HexDigit(i) == HexDigit(j) ==> i == j
  {
  }

  lemma EscapeNoQuote(c: byte)
    requires AsciiByte(c)
    ensures PyEscape(c) != [] && PyEscape(c)[0] != QUOTE
  {
  }

  lemma {:induction false} CutEscaped(a: bytes, x: bytes, b: bytes, y: bytes)
    requires (forall c <- a :: AsciiByte(c)) && (forall c <- b :: AsciiByte(c))
    requires PyEscapeAll(a) + ([QUOTE] + x) == PyEscapeAll(b) + ([QUOTE] + y)
    ensures a == b && x == y
  {
    var s, t := PyEscapeAll(a) + ([QUOTE] + x), PyEscapeAll(b) + ([QUOTE] + y);
    hide PyEscape;
    assert (a == [] ==> s[0] == QUOTE) && (b == [] ==> t[0] == QUOTE);
    if a != [] { EscapedHead(a, [QUOTE] + x); }
    if b != [] { EscapedHead(b, [QUOTE] + y); }
    if a != [] && b != [] {
      var s', t' := PyEscapeAll(a[1..]) + ([QUOTE] + x), PyEscapeAll(b[1..]) + ([QUOTE] + y);
      CutEscape(a[0], s', b[0], t');
      CutEscaped(a[1..], x, b[1..], y);
      assert a == [a[0]] + a[1..] && b == [b[0]] + b[1..];
    } else if a == [] && b == [] {
      assert s[1..] == x && t[1..] == y;
    }
  }

  lemma EscapedHead(a: bytes, x: bytes)
    requires a != [] && forall c <- a :: AsciiByte(c)
    ensures PyEscapeAll(a) + x == PyEscape(a[0]) + (PyEscapeAll(a[1..]) + x)
    ensures (PyEscapeAll(a) + x)[0] != QUOTE
  {
    assert a[0] in a;
    EscapeNoQuote(a[0]);
    hide PyEscape;
    var e := PyEscape(a[0]);
    Assoc(e, PyEscapeAll(a[1..]), x);
    assert (e + (PyEscapeAll(a[1..]) + x))[0] == e[0];
  }

  lemma QuotedTail(a: bytes, x: bytes)
    ensures (Quoted(a) + x)[1..] == a + ([QUOTE] + x)
  {
  }

  lemma CutKey(k: bytes, x: bytes, l: bytes, y: bytes, lang: Lang)
    requires ReadableKey(k, lang) && ReadableKey(l, lang)
    requires Quoted(KeyBody(k, lang)) + x == Quoted(KeyBody(l, lang)) + y
    ensures k == l && x == y
  {
    if lang.Go? {
      CutQuoted(k, x, l, y);
    } else {
      hide PyEscapeAll;
      QuotedTail(PyEscapeAll(k), x);
      QuotedTail(PyEscapeAll(l), y);
      CutEscaped(k, x, l, y);
    }
  }

  lemma CutSame(a: bytes, x: bytes, y: bytes)
    requires a + x == a + y
    ensures x == y
  {
    assert (a + x)[|a|..] == x && (a + y)[|a|..] == y;
  }

  // ---------------------------------------------------------------- one value, then a delimiter

  /** Reading a value off the front of a text leaves no choice. */
  lemma {:induction false} Cut(v: Json, x: bytes, w: Json, y: bytes, lang: Lang)
    requires Canon(v, lang) + x == Canon(w, lang) + y && Delimits(x) && Delimits(y)
    requires Readable(v, lang) && Readable(w, lang)
    ensures v == w && x == y
    decreases v
  {
    FirstByte(v, lang);
    FirstByte(w, lang);
    assert (Canon(v, lang) + x)[0] == Canon(v, lang)[0] && (Canon(w, lang) + y)[0] == Canon(w, lang)[0];
    assert ClassOf(v) == ClassOf(w);
    match v
    case Int(n) => CutInt(n, x, w.n, y);
    case Str(s) => CutQuoted(s, x, w.s, y);
    case Arr(_) =>
      CutOpen(OPEN_ARR, ItemsFrom(v, 0, lang), x, ItemsFrom(w, 0, lang), y);
      CutItems(v, x, w, y, 0, lang);
      assert v.items[0..] == v.items && w.items[0..] == w.items;
    case Obj(m) =>
      var ks, ls := SortedKeys(m.Keys), SortedKeys(w.members.Keys);
      CutOpen(OPEN_OBJ, MembersFrom(v, ks, true, lang), x, MembersFrom(w, ls, true, lang), y);
      CutMembers(v, ks, x, w, ls, y, true, lang);
      SameMembers(v, w, ks);
    case _ =>
      assert Canon(v, lang) == Canon(w, lang);
      CutSame(Canon(v, lang), x, y);
  }

  lemma SameMembers(v: Json, w: Json, ks: seq<bytes>)
    requires v.Obj? && w.Obj? && ks == SortedKeys(v.members.Keys) == SortedKeys(w.members.Keys)
    requires forall k <- ks :: v.members[k] == w.members[k]
    ensures v == w
  {
    assert v.members.Keys == w.members.Keys;
    assert v.members == w.members;
  }

  lemma {:induction false} CutItems(v: Json, x: bytes, w: Json, y: bytes, i: nat, lang: Lang)
    requires v.Arr? && w.Arr? && i <= |v.items| && i <= |w.items|
    requires ItemsFrom(v, i, lang) + x == ItemsFrom(w, i, lang) + y && Delimits(x) && Delimits(y)
    requires Readable(v, lang) && Readable(w, lang)
    ensures v.items[i..] == w.items[i..] && x == y
    decreases v, |v.items| - i
  {
    hide Canon, ItemsFrom;
    if i == |v.items| || i == |w.items| {
      if i < |w.items| { ItemsOpen(w, i, y, lang); ItemsClosed(v, i, x, lang); }
      if i < |v.items| { ItemsOpen(v, i, x, lang); ItemsClosed(w, i, y, lang); }
      ItemsClosed(v, i, x, lang);
      ItemsClosed(w, i, y, lang);
    } else {
      var a, b := ItemsFrom(v, i + 1, lang) + x, ItemsFrom(w, i + 1, lang) + y;
      ItemsHead(v, i, x, lang);
      ItemsHead(w, i, y, lang);
      CutSame(if i > 0 then [COMMA] else [], Canon(v.items[i], lang) + a, Canon(w.items[i], lang) + b);
      ItemsDelimit(v, i + 1, x, lang);
      ItemsDelimit(w, i + 1, y, lang);
      Cut(v.items[i], a, w.items[i], b, lang);
      CutItems(v, x, w, y, i + 1, lang);
      assert v.items[i..] == [v.items[i]] + v.items[i + 1..] && w.items[i..] == [w.items[i]] + w.items[i + 1..];
    }
  }

  lemma ItemsHead(v: Json, i: nat, x: bytes, lang: Lang)
    requires v.Arr? && i < |v.items|
    ensures ItemsFrom(v, i, lang) + x
         == (if i > 0 then [COMMA] else []) + (Canon(v.items[i], lang) + (ItemsFrom(v, i + 1, lang) + x))
  {
    hide Canon;
  }

  lemma ItemsClosed(v: Json, i: nat, x: bytes, lang: Lang)
    requires v.Arr? && i == |v.items|
    ensures ItemsFrom(v, i, lang) + x == [CLOSE_ARR] + x && (ItemsFrom(v, i, lang) + x)[0] == CLOSE_ARR
    ensures (ItemsFrom(v, i, lang) + x)[1..] == x
  {
  }

  lemma ItemsOpen(v: Json, i: nat, x: bytes, lang: Lang)
    requires v.Arr? && i < |v.items|
    ensures ItemsFrom(v, i, lang) + x != [] && (ItemsFrom(v, i, lang) + x)[0] != CLOSE_ARR
  {
    FirstByte(v.items[i], lang);
    ItemsHead(v, i, x, lang);
    hide Canon;
  }

  lemma ItemsDelimit(v: Json, i: nat, x: bytes, lang: Lang)
    requires v.Arr? && 0 < i <= |v.items|
    ensures Delimits(ItemsFrom(v, i, lang) + x)
  {
    if i < |v.items| { ItemsHead(v, i, x, lang); } else { ItemsClosed(v, i, x, lang); }
    hide Canon, ItemsFrom;
  }

  lemma {:induction false} CutMembers(v: Json, ks: seq<bytes>, x: bytes, w: Json, ls: seq<bytes>, y: bytes,
                                      first: bool, lang: Lang)
    requires v.Obj? && w.Obj? && (forall k <- ks :: k in v.members) && (forall k <- ls :: k in w.members)
    requires MembersFrom(v, ks, first, lang) + x == MembersFrom(w, ls, first, lang) + y && Delimits(x) && Delimits(y)
    requires Readable(v, lang) && Readable(w, lang)
    ensures ks == ls && x == y && forall k <- ks :: v.members[k] == w.members[k]
    decreases v, |ks|
  {
    hide Canon, MembersFrom, KeyText, KeyBody, ReadableKey;
    if ks == [] || ls == [] {
      if ls != [] { MembersOpen(w, ls, y, first, lang); MembersClosed(v, x, first, lang); }
      if ks != [] { MembersOpen(v, ks, x, first, lang); MembersClosed(w, y, first, lang); }
      MembersClosed(v, x, first, lang);
      MembersClosed(w, y, first, lang);
    } else {
      var k, l := ks[0], ls[0];
      var a, b := MembersFrom(v, ks[1..], false, lang) + x, MembersFrom(w, ls[1..], false, lang) + y;
      MembersHead(v, ks, x, first, lang);
      MembersHead(w, ls, y, first, lang);
      var c, d := [COLON] + (Canon(v.members[k], lang) + a), [COLON] + (Canon(w.members[l], lang) + b);
      CutSame(if first then [] else [COMMA], Quoted(KeyBody(k, lang)) + c, Quoted(KeyBody(l, lang)) + d);
      CutKey(k, c, l, d, lang);
      CutSame([COLON], Canon(v.members[k], lang) + a, Canon(w.members[l], lang) + b);
      MembersDelimit(v, ks[1..], x, lang);
      MembersDelimit(w, ls[1..], y, lang);
      Cut(v.members[k], a, w.members[l], b, lang);
      CutMembers(v, ks[1..], x, w, ls[1..], y, false, lang);
      assert ks == [k] + ks[1..] && ls == [l] + ls[1..];
    }
  }

  lemma MembersHead(v: Json, ks: seq<bytes>, x: bytes, first: bool, lang: Lang)
    requires v.Obj? && ks != [] && forall k <- ks :: k in v.members
    ensures MembersFrom(v, ks, first, lang) + x
         == (if first then [] else [COMMA])
            + (Quoted(KeyBody(ks[0], lang))
               + ([COLON] + (Canon(v.members[ks[0]], lang) + (MembersFrom(v, ks[1..], false, lang) + x))))
  {
    hide Canon, Quoted, KeyBody;
    var k := ks[0];
    var sep: bytes := if first then [] else [COMMA];
    Regroup(sep, Quoted(KeyBody(k, lang)), [COLON], Canon(v.members[k], lang), MembersFrom(v, ks[1..], false, lang), x);
  }

  lemma Regroup(a: bytes, b: bytes, c: bytes, d: bytes, e: bytes, f: bytes)
    ensures (a + (b + c) + d) + e + f == a + (b + (c + (d + (e + f))))
  {
    Assoc(a + (b + c) + d, e, f);
    Assoc(a + (b + c), d, e + f);
    Assoc(a, b + c, d + (e + f));
    Assoc(b, c, d + (e + f));
  }

  lemma MembersClosed(v: Json, x: bytes, first: bool, lang: Lang)
    requires v.Obj?
    ensures MembersFrom(v, [], first, lang) + x == [CLOSE_OBJ] + x
    ensures (MembersFrom(v, [], first, lang) + x)[0] == CLOSE_OBJ && (MembersFrom(v, [], first, lang) + x)[1..] == x
  {
  }

  lemma MembersOpen(v: Json, ks: seq<bytes>, x: bytes, first: bool, lang: Lang)
    requires v.Obj? && ks != [] && forall k <- ks :: k in v.members
    ensures MembersFrom(v, ks, first, lang) + x != [] && (MembersFrom(v, ks, first, lang) + x)[0] in {COMMA, QUOTE}
  {
    MembersHead(v, ks, x, first, lang);
    hide Canon, MembersFrom;
  }

  lemma MembersDelimit(v: Json, ks: seq<bytes>, x: bytes, lang: Lang)
    requires v.Obj? && forall k <- ks :: k in v.members
    ensures Delimits(MembersFrom(v, ks, false, lang) + x)
  {
    if ks != [] { MembersHead(v, ks, x, false, lang); } else { MembersClosed(v, x, false, lang); }
    hide Canon, MembersFrom;
  }

  // ---------------------------------------------------------------- injectivity, and where it ends

  /** Equal output means equal values, maps compared as maps. */
  lemma EncodingInjective(v: Json, w: Json, lang: Lang)
    requires Readable(v, lang) && Readable(w, lang) && Canon(v, lang) == Canon(w, lang)
    ensures v == w
  {
    hide Canon;
    assert Canon(v, lang) + [] == Canon(w, lang) + [];
    Cut(v, [], w, [], lang);
  }

  lemma {:induction false} KeysOverReadable(v: Json, alphabet: set<byte>, lang: Lang)
    requires KeysOver(v, alphabet)
    requires if lang.Go? then QUOTE !in alphabet else alphabet <= Ascii()
    ensures Readable(v, lang)
    decreases v
  {
    match v
    case Arr(items) =>
      forall x | x in items ensures Readable(x, lang) { KeysOverReadable(x, alphabet, lang); }
    case Obj(m) =>
      forall k | k in m ensures ReadableKey(k, lang) && Readable(m[k], lang) {
        KeysOverReadable(m[k], alphabet, lang);
      }
    case _ =>
  }

  /** Python escapes its keys, so its encoding is injective on all ASCII keys, quotes included. */
  lemma PythonInjective(v: Json, w: Json)
    requires KeysOver(v, Ascii()) && KeysOver(w, Ascii()) && Canon(v, Python) == Canon(w, Python)
    ensures v == w
  {
    hide Canon, Ascii;
    KeysOverReadable(v, Ascii(), Python);
    KeysOverReadable(w, Ascii(), Python);
    EncodingInjective(v, w, Python);
  }

  /** One member whose key pretends to be two, and the two members it imitates. */
  const FORGED: bytes := [QUOTE, COLON, QUOTE, QUOTE, COMMA, QUOTE, COLON]

  ghost predicate Injective(alphabet: set<byte>) {
    forall v, w :: KeysOver(v, alphabet) && KeysOver(w, alphabet) && Canon(v, Go) == Canon(w, Go) ==> v == w
  }

  /** The text of an object with one or two members that hold leaves. */
  lemma OneMember(k: bytes, x: Json)
    requires IsLeaf(x)
    ensures Canon(Obj(map[k := x]), Go) == [OPEN_OBJ] + (KeyText(k, Go) + Leaf(x)) + [CLOSE_OBJ]
  {
    hide KeyText, Leaf;
    var v := Obj(map[k := x]);
    AscendingUnique([k], SortedKeys(v.members.Keys));
    hide SortedKeys;
    assert [k][1..] == [];
    assert MembersFrom(v, [], false, Go) == [CLOSE_OBJ] && Canon(x, Go) == Leaf(x);
    assert MembersFrom(v, [k], true, Go) == ([] + KeyText(k, Go) + Leaf(x)) + [CLOSE_OBJ];
    assert [] + KeyText(k, Go) == KeyText(k, Go);
  }

  lemma TwoMembers(k: bytes, x: Json, l: bytes, y: Json)
    requires Less(k, l) && k != l && IsLeaf(x) && IsLeaf(y)
    ensures Canon(Obj(map[k := x, l := y]), Go)
         == [OPEN_OBJ] + (KeyText(k, Go) + Leaf(x)) + ([COMMA] + KeyText(l, Go) + Leaf(y)) + [CLOSE_OBJ]
  {
    hide KeyText, Leaf;
    var v := Obj(map[k := x, l := y]);
    AscendingUnique([k, l], SortedKeys(v.members.Keys));
    hide SortedKeys;
    assert [k, l][1..] == [l] && [l][1..] == [];
    assert MembersFrom(v, [], false, Go) == [CLOSE_OBJ] && Canon(x, Go) == Leaf(x) && Canon(y, Go) == Leaf(y);
    assert MembersFrom(v, [l], false, Go) == ([COMMA] + KeyText(l, Go) + Leaf(y)) + [CLOSE_OBJ];
    assert MembersFrom(v, [k, l], true, Go) == ([] + KeyText(k, Go) + Leaf(x)) + MembersFrom(v, [l], false, Go);
    assert [] + KeyText(k, Go) == KeyText(k, Go);
  }

  /** One member, and two that print the same: `{"":"",":":null}`. */
  const ONE: Json := Obj(map[FORGED := Null])
  const TWO: Json := Obj(map[[] := Str([]), [COLON] := Null])

  lemma ForgedText()
    ensures Canon(ONE, Go) == Canon(TWO, Go)
  {
    hide Canon;
    OneMember(FORGED, Null);
    TwoMembers([], Str([]), [COLON], Null);
    assert KeyText(FORGED, Go) == KeyText([], Go) + Leaf(Str([])) + ([COMMA] + KeyText([COLON], Go));
  }

  /** Go writes keys raw: over any key alphabet with a colon and a comma, which the forged key needs besides the
      quote, the encoding is injective exactly when the alphabet has no quote. */
  lemma InjectiveIff(alphabet: set<byte>)
    requires {COLON, COMMA} <= alphabet
    ensures Injective(alphabet) <==> QUOTE !in alphabet
  {
    hide Canon;
    if QUOTE !in alphabet {
      forall v, w | KeysOver(v, alphabet) && KeysOver(w, alphabet) && Canon(v, Go) == Canon(w, Go) ensures v == w {
        KeysOverReadable(v, alphabet, Go);
        KeysOverReadable(w, alphabet, Go);
        EncodingInjective(v, w, Go);
      }
    } else {
      ForgedText();
      assert forall c <- FORGED :: c in alphabet;
      assert KeysOver(ONE, alphabet) && KeysOver(TWO, alphabet);
      assert [COLON] in TWO.members && [COLON] !in ONE.members;
    }
  }
}
