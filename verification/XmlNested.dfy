/** Elements inside element text: read as they stand, up to the end tag of the element the
    text belongs to. */
module XmlNested {
  import opened Wire
  import opened XmlToken
  import opened XmlText
  import XmlMarkup

  // Text with tags in it, cut where the number of open elements changes: '<' and the first
  // byte of a tag, "</", "/>", any other slash, any other byte.
  datatype Item = Open(b: Byte) | Close | EmptyClose | Slash | Plain(b: Byte)

  function Bytes(i: Item): seq<Byte> {
    match i
    case Open(b) => [C_LT, b]
    case Close => [C_LT, C_SLASH]
    case EmptyClose => [C_SLASH, C_GT]
    case Slash => [C_SLASH]
    case Plain(b) => [b]
  }

  function Flat(items: seq<Item>): seq<Byte> {
    if items == [] then [] else Bytes(items[0]) + Flat(items[1..])
  }

  // A byte that is not markup; a tag does not start with white space, nor with what starts
  // a comment or an instruction.
  predicate IsItem(i: Item) {
    && (i.Plain? ==> i.b != 0 && i.b != C_LT && i.b != C_AMP && i.b != C_SLASH)
    && (i.Open? ==> i.b > 32 && i.b != C_LT && i.b != C_AMP && i.b !in [C_SLASH, C_BANG, C_ASK, C_PERCENT])
  }

  // No "/>" but at the end of an empty element.
  ghost predicate Tagged(items: seq<Item>) {
    && (forall k :: 0 <= k < |items| ==> IsItem(items[k]))
    && (forall k :: 0 <= k < |items| && items[k].Slash? ==> k + 1 < |items| && items[k + 1] != Plain(C_GT))
  }

  // How many elements are open after items when n are before; None if one is closed that is
  // not.
  function Depth(items: seq<Item>, n: nat): Option<nat> {
    if items == [] then Some(n)
    else
      match items[0]
      case Open(_) => Depth(items[1..], n + 1)
      case Close => if n == 0 then None else Depth(items[1..], n - 1)
      case EmptyClose => if n == 0 then None else Depth(items[1..], n - 1)
      case _ => Depth(items[1..], n)
  }

  lemma OpenReads(b: Byte, v: seq<Byte>)
    requires IsItem(Open(b))
    ensures Next(In(0, [C_LT, b] + v, false)) == (TAG, In(0, [b] + v, false))
  {
    assert ([C_LT, b] + v)[1..] == [b] + v && SkipBlank([b] + v) == [b] + v;
  }

  // A token that was read can be put back.
  lemma TokenBack(i: Item, v: seq<Byte>)
    requires IsItem(i)
    ensures var (c, st) := Next(In(0, Bytes(i) + v, false));
            Next(st.(ahead := c)) == (c, st) && (c == GT ==> i == Plain(C_GT))
  {
    match i
    case Open(b) => OpenReads(b, v);
    case Close => EndTagReads(v);
    case EmptyClose =>
      PlainReads(C_SLASH, [C_GT] + v);
      assert Bytes(i) + v == [C_SLASH] + ([C_GT] + v);
    case Slash => PlainReads(C_SLASH, v);
    case Plain(b) => PlainReads(b, v);
  }

  // One step of the text, when the token and what follows it are known.
  lemma OneStep(st: In, n: nat, decode: bool, c: int, st1: In, s: Step)
    requires Next(st) == (c, st1) && StepOf(c, st1, n, decode) == s && s.Step?
    ensures Content(st, n, decode) == Prefixed(s.piece, Content(s.st, s.n, decode))
  {
    hide Next, StepOf;
  }

  lemma PlainStep(b: Byte, v: seq<Byte>, n: nat, decode: bool)
    requires b != C_LT && b != C_AMP && b != C_SLASH
    ensures Content(In(0, [b] + v, false), n, decode) == Prefixed([b], Content(In(0, v, false), n, decode))
  {
    hide Next, Content;
    PlainReads(b, v);
    OneStep(In(0, [b] + v, false), n, decode, Token(b), In(0, v, false), Step([b], In(0, v, false), n));
  }

  lemma SlashStep(v: seq<Byte>, n: nat, decode: bool)
    requires var (c, st) := Next(In(0, v, false)); c != GT && Next(st.(ahead := c)) == (c, st)
    ensures Content(In(0, [C_SLASH] + v, false), n, decode) == Prefixed([C_SLASH], Content(In(0, v, false), n, decode))
  {
    hide Next, Content;
    var st := In(0, [C_SLASH] + v, false);
    PlainReads(C_SLASH, v);
    var (c1, st1) := Next(In(0, v, false));
    var next := if n > 0 then st1.(ahead := c1) else In(0, v, false);
    OneStep(st, n, decode, C_SLASH, In(0, v, false), Step([C_SLASH], next, n));
    XmlMarkup.SameContent(next, In(0, v, false), n, decode);
  }

  lemma EmptyCloseStep(v: seq<Byte>, n: nat, decode: bool)
    requires n > 0
    ensures Content(In(0, [C_SLASH, C_GT] + v, false), n, decode) == Prefixed([C_SLASH, C_GT], Content(In(0, v, false), n - 1, decode))
  {
    hide Next, Content;
    var st, w := In(0, [C_SLASH, C_GT] + v, false), [C_GT] + v;
    assert [C_SLASH, C_GT] + v == [C_SLASH] + w;
    PlainReads(C_SLASH, w);
    PlainReads(C_GT, v);
    var next := In(GT, v, false);
    OneStep(st, n, decode, C_SLASH, In(0, w, false), Step([C_SLASH], next, n - 1));
    AheadGt(v);
    OneStep(next, n - 1, decode, GT, In(0, v, false), Step([C_GT], In(0, v, false), n - 1));
    PrefixedTwice([C_SLASH], [C_GT], Content(In(0, v, false), n - 1, decode));
    assert [C_SLASH] + [C_GT] == [C_SLASH, C_GT];
  }

  lemma AheadGt(v: seq<Byte>)
    ensures Next(In(GT, v, false)) == (GT, In(0, v, false))
  {
  }

  lemma OpenStep(b: Byte, v: seq<Byte>, n: nat, decode: bool)
    requires IsItem(Open(b))
    ensures Content(In(0, [C_LT, b] + v, false), n, decode) == Prefixed([C_LT, b], Content(In(0, v, false), n + 1, decode))
  {
    hide Next, Content;
    var w := [b] + v;
    OpenReads(b, v);
    OneStep(In(0, [C_LT, b] + v, false), n, decode, TAG, In(0, w, false), Step([C_LT], In(0, w, false), n + 1));
    PlainStep(b, v, n + 1, decode);
    PrefixedTwice([C_LT], [b], Content(In(0, v, false), n + 1, decode));
    assert [C_LT] + [b] == [C_LT, b];
  }

  lemma CloseStep(v: seq<Byte>, n: nat, decode: bool)
    requires n > 0
    ensures Content(In(0, [C_LT, C_SLASH] + v, false), n, decode) == Prefixed([C_LT, C_SLASH], Content(In(0, v, false), n - 1, decode))
  {
    hide Next, Content;
    EndTagReads(v);
    OneStep(In(0, [C_LT, C_SLASH] + v, false), n, decode, END_TAG, In(0, v, false), Step([C_LT, C_SLASH], In(0, v, false), n - 1));
  }

  lemma TaggedTail(items: seq<Item>)
    requires Tagged(items) && items != []
    ensures Tagged(items[1..]) && IsItem(items[0])
    ensures items[0].Slash? ==> items[1..] != [] && IsItem(items[1]) && items[1..][0] == items[1] != Plain(C_GT)
  {
    assert forall k :: 0 <= k < |items[1..]| ==> items[1..][k] == items[k + 1];
  }

  lemma {:induction false} ItemsRead(items: seq<Item>, w: seq<Byte>, n: nat, decode: bool)
    requires Tagged(items) && Depth(items, n).Some?
    ensures Content(In(0, Flat(items) + w, false), n, decode) == Prefixed(Flat(items), Content(In(0, w, false), Depth(items, n).value, decode))
    decreases |items|
  {
    hide Next, Content, Tagged, IsItem;
    if items == [] {
      assert Flat(items) + w == w;
      var o := Content(In(0, w, false), n, decode);
      assert [] + o.bytes == o.bytes;
    } else {
      var v, tail := Flat(items[1..]) + w, items[1..];
      assert Flat(items) + w == Bytes(items[0]) + v;
      TaggedTail(items);
      match items[0] {
        case Open(b) =>
          OpenStep(b, v, n, decode);
        case Close =>
          CloseStep(v, n, decode);
        case EmptyClose =>
          EmptyCloseStep(v, n, decode);
        case Slash =>
          assert v == Bytes(tail[0]) + (Flat(tail[1..]) + w);
          TokenBack(tail[0], Flat(tail[1..]) + w);
          SlashStep(v, n, decode);
        case Plain(b) =>
          PlainByte(items[0]);
          PlainStep(b, v, n, decode);
      }
      var n1 := Opened(items[0], n);
      ItemsRead(tail, w, n1, decode);
      PrefixedTwice(Bytes(items[0]), Flat(tail), Content(In(0, w, false), Depth(items, n).value, decode));
    }
  }

  // The number of open elements after one item.
  function Opened(i: Item, n: nat): nat {
    if i.Open? then n + 1 else if (i.Close? || i.EmptyClose?) && n > 0 then n - 1 else n
  }

  lemma PlainByte(i: Item)
    requires IsItem(i) && i.Plain?
    ensures i.b != C_LT && i.b != C_AMP && i.b != C_SLASH
  {
  }

  /** Element content with elements nested to any depth is read as it stands, and the end tag
      that ends it is the one of the element itself. */
  lemma NestedReadBack(items: seq<Item>, more: seq<Byte>, decode: bool)
    requires Tagged(items) && Depth(items, 0) == Some(0)
    ensures Content(In(0, Flat(items) + [C_LT, C_SLASH] + more, false), 0, decode) == Out(Flat(items), END_TAG, In(0, more, false))
  {
    hide Next, Content, Tagged;
    var w := [C_LT, C_SLASH] + more;
    assert Flat(items) + [C_LT, C_SLASH] + more == Flat(items) + w;
    ItemsRead(items, w, 0, decode);
    EndTagReads(more);
    EndHere(w, more, decode);
    assert Flat(items) + [] == Flat(items);
  }

  lemma EndHere(w: seq<Byte>, more: seq<Byte>, decode: bool)
    requires Next(In(0, w, false)) == (END_TAG, In(0, more, false))
    ensures Content(In(0, w, false), 0, decode) == Out([], END_TAG, In(0, more, false))
  {
    hide Next;
  }

  /** A "/>" that ends no element ends one all the same: the text behind it is lost. */
  lemma SlashGtLost(more: seq<Byte>, decode: bool)
    ensures var text := Flat([Open(97), Plain(C_GT), EmptyClose, Close, Plain(97), Plain(C_GT)]);
            text == [60, 97, 62, 47, 62, 60, 47, 97, 62]  // <a>/></a>
            && Content(In(0, text + more, false), 0, decode).bytes == [60, 97, 62, 47, 62]
  {
    hide Content, Next;
    var items := [Open(97), Plain(C_GT), EmptyClose];
    var w := [97, 62] + more;
    FlatSix();
    assert Tagged(items);
    assert items[1..] == [Plain(C_GT), EmptyClose] && items[1..][1..] == [EmptyClose] && items[1..][1..][1..] == [];
    assert Depth(items, 0) == Depth(items[1..], 1) == Depth(items[1..][1..], 1) == Depth([], 0);
    ItemsRead(items, [C_LT, C_SLASH] + w, 0, decode);
    EndTagReads(w);
    EndHere([C_LT, C_SLASH] + w, w, decode);
    assert Flat([EmptyClose]) == [47, 62] + Flat([]) == [47, 62];
    assert Flat(items[1..]) == [62] + Flat([EmptyClose]);
    assert Flat(items) == [60, 97] + ([62] + [47, 62]);
    assert [60, 97, 62, 47, 62, 60, 47, 97, 62] + more == Flat(items) + ([C_LT, C_SLASH] + w);
  }

  lemma FlatSix()
    ensures Flat([Open(97), Plain(C_GT), EmptyClose, Close, Plain(97), Plain(C_GT)]) == [60, 97, 62, 47, 62, 60, 47, 97, 62]
  {
    var i6 := [Plain(C_GT)];
    var i5 := [Plain(97)] + i6;
    var i4 := [Close] + i5;
    var i3 := [EmptyClose] + i4;
    var i2 := [Plain(C_GT)] + i3;
    var i1 := [Open(97)] + i2;
    assert i6[1..] == [] && i5[1..] == i6 && i4[1..] == i5 && i3[1..] == i4 && i2[1..] == i3 && i1[1..] == i2;
    assert Flat(i6) == [62] && Flat(i5) == [97, 62] && Flat(i4) == [60, 47, 97, 62];
    assert Flat(i3) == [47, 62] + Flat(i4) && Flat(i2) == [62] + Flat(i3) && Flat(i1) == [60, 97] + Flat(i2);
    assert [Open(97), Plain(C_GT), EmptyClose, Close, Plain(97), Plain(C_GT)] == i1;
  }
}
