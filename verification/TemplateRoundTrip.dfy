/** Parsing undoes a printer of templates, in every form that clients may write. */
module TemplateRoundTrip {
  import opened Options
  import opened TemplateParse

  /** How an item is written: which of its percent signs are doubled without need, how many digits the
      position has at least, and whether its name is closed by a colon without need. */
  datatype Style = Style(doubled: set<nat>, digits: nat, closed: bool)

  /** A parameter with the literal text in front of it, with or without a name. */
  datatype Item = Item(text: string, option: char, pos: nat, name: Option<string>, style: Style)

  // ----- literal text -----

  /** May a single percent sign stand in front of this text? */
  predicate TakesSingle(more: string)
  {
    more == "" || (more[0] != '%' && !IsDigit(more[0]))
  }

  /** A character in front of `more`; a percent sign is doubled if asked for or necessary. */
  function Letter(c: char, twice: bool, more: string): (s: string)
    ensures s != "" && s[0] == c
  {
    if c == '%' && (twice || !TakesSingle(more)) then "%%" else [c]
  }

  /** The literal text from character `i` on, in front of `rest`. */
  function Escaped(text: string, i: nat, doubled: set<nat>, rest: string): string
    requires i <= |text|
    decreases |text| - i
  {
    if i == |text| then rest
    else var more := Escaped(text, i + 1, doubled, rest); Letter(text[i], i in doubled, more) + more
  }

  // ----- parameters -----

  function Digit(n: nat): (c: char)
    requires n < 10
    ensures IsDigit(c) && DigitValue(c) == n
  {
    '0' + n as char
  }

  /** A number below 1000 with at least `k` digits, and at most three. */
  function Digits(n: nat, k: nat): (s: string)
    ensures 1 <= |s| <= 3 && forall i :: 0 <= i < |s| ==> IsDigit(s[i])
  {
    if k >= 3 || n >= 100 then [Digit(n / 100 % 10), Digit(n / 10 % 10), Digit(n % 10)]
    else if k == 2 || n >= 10 then [Digit(n / 10 % 10), Digit(n % 10)]
    else [Digit(n % 10)]
  }

  function OptionText(option: char): string
  {
    if option == ' ' then "" else [option]
  }

  /** Does a name end by itself in front of this text? */
  predicate EndsName(rest: string)
  {
    rest == "" || (!IsNameChar(rest[0]) && rest[0] != ':')
  }

  /** A name after a colon; it is closed by a colon if asked for or necessary. */
  function NameText(name: Option<string>, closed: bool, rest: string): string
  {
    match name
    case None => ""
    case Some(n) => ":" + (n + if closed || !EndsName(rest) then ":" else "")
  }

  /** All digits are needed if another digit would follow them. */
  function DigitsAsked(it: Item, rest: string): nat
  {
    if it.option == ' ' && it.name.None? && rest != "" && IsDigit(rest[0]) then 3 else it.style.digits
  }

  /** A parameter in front of `rest`: percent sign, digits, option, name. */
  function ParamText(it: Item, rest: string): (s: string)
    ensures s != "" && s[0] == '%'
  {
    "%" + (Digits(it.pos, DigitsAsked(it, rest))
           + (OptionText(it.option) + (NameText(it.name, it.style.closed, rest) + rest)))
  }

  function Render(items: seq<Item>, tail: string, doubled: set<nat>): string
    decreases |items|
  {
    if items == [] then Escaped(tail, 0, doubled, "")
    else
      var it := items[0];
      Escaped(it.text, 0, it.style.doubled, ParamText(it, Render(items[1..], tail, doubled)))
  }

  /** What can be written: no NUL, a known option, three digits, a name of name characters; and a
      parameter without a name is not followed by text that would be read as its option or name. */
  predicate Printable(it: Item, rest: string)
  {
    && '\0' !in it.text && it.option in {' ', 'q', 'Q'} && it.pos < 1000
    && match it.name
       case None => rest == "" || (rest[0] != ':' && (it.option == ' ' ==> rest[0] !in {'q', 'Q'}))
       case Some(name) => forall i :: 0 <= i < |name| ==> IsNameChar(name[i])
  }

  predicate AllPrintable(items: seq<Item>, tail: string, doubled: set<nat>)
    decreases |items|
  {
    if items == [] then '\0' !in tail
    else Printable(items[0], Render(items[1..], tail, doubled)) && AllPrintable(items[1..], tail, doubled)
  }

  // ----- the pieces of what was printed -----

  function Literals(text: string): seq<Piece>
  {
    seq(|text|, i requires 0 <= i < |text| => Literal(text[i]))
  }

  function ParamOf(it: Item): Piece
  {
    Param(it.pos, it.option, it.name)
  }

  function ItemPieces(items: seq<Item>, tail: string): seq<Piece>
  {
    if items == [] then Literals(tail)
    else Literals(items[0].text) + ([ParamOf(items[0])] + ItemPieces(items[1..], tail))
  }

  lemma PiecesOfLetter(c: char, twice: bool, more: string)
    requires c != '\0'
    ensures Pieces(Letter(c, twice, more) + more) == [Literal(c)] + Pieces(more)
  {
    var s := Letter(c, twice, more) + more;
    assert Scan(s) == (Literal(c), more) by {
      if |Letter(c, twice, more)| == 2 {
        assert s[1..][0] == '%' && s[2..] == more;
      } else {
        assert s[1..] == more;
      }
    }
    hide Scan;
    assert s != "" && s[0] == c;
  }

  lemma {:induction false} PiecesOfText(text: string, i: nat, doubled: set<nat>, rest: string)
    requires '\0' !in text && i <= |text|
    ensures Pieces(Escaped(text, i, doubled, rest)) == Literals(text[i..]) + Pieces(rest)
    decreases |text| - i
  {
    hide Pieces, Literals, Letter;
    LiteralsSplit(text[i..]);
    if i == |text| {
      assert Literals(text[i..]) + Pieces(rest) == Pieces(rest);
    } else {
      var c := text[i];
      assert c in text && text[i..][1..] == text[i + 1..];
      PiecesOfText(text, i + 1, doubled, rest);
      PiecesOfLetter(c, i in doubled, Escaped(text, i + 1, doubled, rest));
      assert [Literal(c)] + (Literals(text[i + 1..]) + Pieces(rest)) == Literals(text[i..]) + Pieces(rest);
    }
  }

  lemma LiteralsSplit(text: string)
    ensures Literals(text) == if text == "" then [] else [Literal(text[0])] + Literals(text[1..])
  {
  }

  lemma {:induction false} NameRunOfName(name: string, rest: string)
    requires forall i :: 0 <= i < |name| ==> IsNameChar(name[i])
    requires rest == "" || !IsNameChar(rest[0])
    ensures NameRun(name + rest) == |name|
  {
    if name == "" {
      assert name + rest == rest;
    } else {
      assert (name + rest)[1..] == name[1..] + rest;
      NameRunOfName(name[1..], rest);
    }
  }

  lemma NumberOfDigits(n: nat, k: nat)
    requires n < 1000
    ensures Number(Digits(n, k)) == n
  {
    var s := Digits(n, k);
    if |s| == 3 {
      assert s[..2][..1][..0] == "" && s[..2][..1] == [s[0]] && s[..2] == [s[0], s[1]];
      assert Number(s[..2][..1]) == n / 100;
      assert Number(s[..2]) == 10 * (n / 100) + n / 10 % 10;
    } else if |s| == 2 {
      assert s[..1][..0] == "" && s[..1] == [s[0]];
      assert Number(s[..1]) == n / 10;
    } else {
      assert s[..0] == "";
    }
  }

  lemma ScanNameOf(name: Option<string>, closed: bool, rest: string)
    requires name.None? ==> !Starts(rest, ':')
    requires name.Some? ==> forall i :: 0 <= i < |name.value| ==> IsNameChar(name.value[i])
    ensures ScanNamePart(NameText(name, closed, rest) + rest) == (name, rest)
  {
    if name.None? {
      assert NameText(name, closed, rest) + rest == rest;
    } else {
      var more := (if closed || !EndsName(rest) then ":" else "") + rest;
      assert NameText(name, closed, rest) + rest == ":" + (name.value + more);
      ScanNamed(name.value, more);
      if closed || !EndsName(rest) {
        assert more == ":" + rest && more[1..] == rest;
      } else {
        assert more == rest;
      }
    }
  }

  lemma ScanNamed(name: string, more: string)
    requires forall i :: 0 <= i < |name| ==> IsNameChar(name[i])
    requires more == "" || !IsNameChar(more[0])
    ensures ScanNamePart(":" + (name + more)) == (Some(name), DropIf(more, ':'))
  {
    hide NameRun, IsNameChar;
    var u := ":" + (name + more);
    assert u[1..] == name + more;
    NameRunOfName(name, more);
    assert (name + more)[..|name|] == name && (name + more)[|name|..] == more;
  }

  lemma ScanOptionOf(option: char, rest: string)
    requires option in {' ', 'q', 'Q'} && (option == ' ' ==> !Starts(rest, 'q') && !Starts(rest, 'Q'))
    ensures ScanOption(OptionText(option) + rest) == (option, rest)
  {
    if option == ' ' {
      assert OptionText(option) + rest == rest;
    } else {
      assert (OptionText(option) + rest)[1..] == rest;
    }
  }

  lemma DigitRunOf(d: string, more: string)
    requires 1 <= |d| <= 3 && (forall i :: 0 <= i < |d| ==> IsDigit(d[i]))
    requires |d| == 3 || more == "" || !IsDigit(more[0])
    ensures DigitRun(d + more, 3) == |d|
  {
    DigitRunIs(d + more, |d|);
  }

  lemma AfterDigits(it: Item, rest: string)
    requires Printable(it, rest)
    ensures var more := OptionText(it.option) + (NameText(it.name, it.style.closed, rest) + rest);
            |Digits(it.pos, DigitsAsked(it, rest))| == 3 || more == "" || !IsDigit(more[0])
    ensures var named := NameText(it.name, it.style.closed, rest) + rest;
            it.option == ' ' ==> !Starts(named, 'q') && !Starts(named, 'Q')
  {
    var named := NameText(it.name, it.style.closed, rest) + rest;
    if it.name.None? {
      assert named == rest;
    } else {
      assert named[0] == ':';
    }
    if it.option == ' ' {
      assert OptionText(it.option) + named == named;
    }
  }

  lemma ScanOfParam(it: Item, rest: string)
    requires Printable(it, rest)
    ensures Scan(ParamText(it, rest)) == (ParamOf(it), rest)
  {
    AfterDigits(it, rest);
    hide Number, NameRun, ScanOption, ScanNamePart, Digits, OptionText, NameText;
    var d := Digits(it.pos, DigitsAsked(it, rest));
    var named := NameText(it.name, it.style.closed, rest) + rest;
    var more := OptionText(it.option) + named;
    var s := ParamText(it, rest);
    assert s[1..] == d + more;
    var t := s[1..];
    DigitRunOf(d, more);
    assert t[..|d|] == d && t[|d|..] == more;
    NumberOfDigits(it.pos, DigitsAsked(it, rest));
    ScanOptionOf(it.option, named);
    ScanNameOf(it.name, it.style.closed, rest);
  }

  lemma PiecesOfParam(it: Item, rest: string)
    requires Printable(it, rest)
    ensures Pieces(ParamText(it, rest)) == [ParamOf(it)] + Pieces(rest)
  {
    hide Scan, ParamOf, ParamText;
    ScanOfParam(it, rest);
  }

  lemma {:induction false} PiecesOfRender(items: seq<Item>, tail: string, doubled: set<nat>)
    requires AllPrintable(items, tail, doubled)
    ensures Pieces(Render(items, tail, doubled)) == ItemPieces(items, tail)
    decreases |items|
  {
    hide Pieces, ParamText, Escaped, Literals, ParamOf;
    if items == [] {
      PiecesOfText(tail, 0, doubled, "");
      assert tail[0..] == tail;
      assert Literals(tail) + Pieces("") == Literals(tail) by { NoPieces(); }
    } else {
      var it, rest := items[0], Render(items[1..], tail, doubled);
      PiecesOfText(it.text, 0, it.style.doubled, ParamText(it, rest));
      assert it.text[0..] == it.text;
      PiecesOfParam(it, rest);
      PiecesOfRender(items[1..], tail, doubled);
    }
  }

  lemma NoPieces()
    ensures Pieces("") == []
  {
  }

  // ----- what is built from them -----

  lemma {:induction false} AddConcat(b: Build, xs: seq<Piece>, ys: seq<Piece>)
    ensures AllDefined(xs + ys) <==> AllDefined(xs) && AllDefined(ys)
    ensures AllDefined(xs + ys) ==> AddPieces(b, xs + ys) == AddPieces(AddPieces(b, xs), ys)
    decreases |xs|
  {
    hide AddPiece, IsDefined;
    assert AllDefined(xs + ys) <==> AllDefined(xs) && AllDefined(ys) by {
      assert forall i :: 0 <= i < |xs| ==> (xs + ys)[i] == xs[i];
      assert forall i :: 0 <= i < |ys| ==> (xs + ys)[|xs| + i] == ys[i];
    }
    if xs == [] {
      assert xs + ys == ys;
    } else if AllDefined(xs + ys) {
      assert (xs + ys)[1..] == xs[1..] + ys;
      AddConcat(AddPiece(b, xs[0]), xs[1..], ys);
    }
  }

  lemma {:induction false} AddLiterals(b: Build, text: string)
    ensures AllDefined(Literals(text)) && AddPieces(b, Literals(text)) == b.(text := b.text + text)
    decreases |text|
  {
    if text == "" {
      assert b.text + text == b.text;
    } else {
      var b1 := b.(text := b.text + [text[0]]);
      assert Literals(text)[1..] == Literals(text[1..]);
      AddLiterals(b1, text[1..]);
      assert b1.text + text[1..] == b.text + text;
    }
  }

  /** The position of a named item must not be negative as a signed char. */
  predicate ItemDefined(it: Item)
  {
    it.name.Some? ==> ToSignedChar(it.pos) >= 0
  }

  /** One item: its text and its parameter. */
  function AddItem(b: Build, it: Item): (r: Build)
    requires ItemDefined(it)
  {
    var n := ToSignedChar(it.pos);
    var elems := b.elems + [Elem(b.text + it.text, it.option, n)];
    match it.name
    case None => Build("", elems, b.names, b.nums)
    case Some(name) => Build("", elems, SetName(b.names, n, name), b.nums[name := n])
  }

  predicate PositionsDefined(items: seq<Item>)
  {
    forall i :: 0 <= i < |items| ==> ItemDefined(items[i])
  }

  function AddItems(b: Build, items: seq<Item>): Build
    requires PositionsDefined(items)
    decreases |items|
  {
    if items == [] then b else AddItems(AddItem(b, items[0]), items[1..])
  }

  lemma AddParamOf(b: Build, it: Item, rest: seq<Piece>)
    ensures AllDefined([ParamOf(it)] + rest) <==> ItemDefined(it) && AllDefined(rest)
    ensures AllDefined([ParamOf(it)] + rest) ==>
              AddPieces(b.(text := b.text + it.text), [ParamOf(it)] + rest) == AddPieces(AddItem(b, it), rest)
  {
    hide SetName;
    var b1 := b.(text := b.text + it.text);
    AddConcat(b1, [ParamOf(it)], rest);
    assert [ParamOf(it)][1..] == [];
    assert [ParamOf(it)][0] == ParamOf(it);
    assert AllDefined([ParamOf(it)]) <==> IsDefined(ParamOf(it));
    if ItemDefined(it) {
      assert AddPiece(b1, ParamOf(it)) == AddItem(b, it);
    }
  }

  lemma {:induction false} AddItemPieces(b: Build, items: seq<Item>, tail: string)
    ensures AllDefined(ItemPieces(items, tail)) <==> PositionsDefined(items)
    ensures PositionsDefined(items) ==>
              AddPieces(b, ItemPieces(items, tail)) == (var r := AddItems(b, items); r.(text := r.text + tail))
    decreases |items|
  {
    hide AllDefined, AddPieces, AddItem, ParamOf, Literals;
    if items == [] {
      AddLiterals(b, tail);
    } else {
      var it, rest := items[0], ItemPieces(items[1..], tail);
      AddLiterals(b, it.text);
      AddConcat(b, Literals(it.text), [ParamOf(it)] + rest);
      AddParamOf(b, it, rest);
      assert PositionsDefined(items) <==> ItemDefined(it) && PositionsDefined(items[1..]) by {
        assert forall i :: 1 <= i < |items| ==> items[i] == items[1..][i - 1];
        assert forall i :: 0 <= i < |items| - 1 ==> items[1..][i] == items[i + 1];
      }
      if ItemDefined(it) {
        AddItemPieces(AddItem(b, it), items[1..], tail);
      } else {
        AddItemPieces(b, items[1..], tail);
      }
    }
  }

  /** The elements of a parsed canonical text, without the last. */
  function Elems(items: seq<Item>): (r: seq<Elem>)
    ensures |r| == |items|
  {
    seq(|items|, i requires 0 <= i < |items| => Elem(items[i].text, items[i].option, ToSignedChar(items[i].pos)))
  }

  function Expected(items: seq<Item>): (r: seq<Elem>)
    ensures |r| == |items|
  {
    seq(|items|, i requires 0 <= i < |items| => Elem(items[i].text, items[i].option, items[i].pos))
  }

  lemma {:induction false} ElemsOfItems(b: Build, items: seq<Item>)
    requires PositionsDefined(items) && b.text == ""
    ensures AddItems(b, items).text == "" && AddItems(b, items).elems == b.elems + Elems(items)
    decreases |items|
  {
    if items == [] {
      assert b.elems + Elems(items) == b.elems;
    } else {
      ElemsOfItems(AddItem(b, items[0]), items[1..]);
      assert b.text + items[0].text == items[0].text;
      assert Elems(items) == [Elem(items[0].text, items[0].option, ToSignedChar(items[0].pos))] + Elems(items[1..]);
    }
  }

  const Nothing := Build("", [], [], map[])

  predicate AtMost127(items: seq<Item>)
  {
    forall i :: 0 <= i < |items| ==> items[i].pos <= 127
  }

  lemma ElemsAsExpected(items: seq<Item>, last: Elem)
    ensures Elems(items) + [last] == Expected(items) + [last] <==> AtMost127(items)
    ensures AtMost127(items) ==> PositionsDefined(items)
  {
    if Elems(items) + [last] == Expected(items) + [last] {
      forall i | 0 <= i < |items| ensures items[i].pos <= 127 {
        assert (Elems(items) + [last])[i] == Elems(items)[i];
        assert (Expected(items) + [last])[i] == Expected(items)[i];
      }
    }
    if AtMost127(items) {
      assert Elems(items) == Expected(items);
    }
  }

  lemma FinishOfItems(items: seq<Item>, tail: string)
    requires PositionsDefined(items)
    ensures AllDefined(ItemPieces(items, tail))
    ensures Finish(AddPieces(Nothing, ItemPieces(items, tail))).elems == Elems(items) + [Elem(tail, ' ', -1)]
  {
    hide AllDefined, AddPieces, AddItems, ItemPieces, Elems, PositionsDefined;
    AddItemPieces(Nothing, items, tail);
    ElemsOfItems(Nothing, items);
    assert Nothing.elems + Elems(items) == Elems(items);
    assert "" + tail == tail;
  }

  /** Parsing the printed text, in whatever style, is defined and gives back the list, with one more
      element for the text at the end, exactly when every position is at most 127: the position is
      kept in a signed char. */
  lemma ParseUndoesPrint(items: seq<Item>, tail: string, doubled: set<nat>)
    requires AllPrintable(items, tail, doubled)
    ensures var xs := Pieces(Render(items, tail, doubled));
            (AllDefined(xs) && Finish(AddPieces(Nothing, xs)).elems == Expected(items) + [Elem(tail, ' ', -1)])
            <==> AtMost127(items)
  {
    hide *;
    PiecesOfRender(items, tail, doubled);
    AddItemPieces(Nothing, items, tail);
    ElemsAsExpected(items, Elem(tail, ' ', -1));
    if PositionsDefined(items) {
      FinishOfItems(items, tail);
    }
  }

  // ----- the maps of names -----

  /** `i` is the last named item with its position, `i` is the last item with its name. */
  predicate LastPos(items: seq<Item>, i: nat)
    requires i < |items|
  {
    forall j :: i < j < |items| && items[j].name.Some? ==> items[j].pos != items[i].pos
  }

  predicate LastName(items: seq<Item>, i: nat)
    requires i < |items|
  {
    forall j :: i < j < |items| ==> items[j].name != items[i].name
  }

  lemma {:induction false} NamesAt(b: Build, items: seq<Item>, n: nat, name: string)
    requires forall i :: 0 <= i < |items| ==> items[i].pos <= 127
    ensures PositionsDefined(items)
    ensures n < |b.names| && (forall i :: 0 <= i < |items| && items[i].name.Some? ==> items[i].pos != n) ==>
              n < |AddItems(b, items).names| && AddItems(b, items).names[n] == b.names[n]
    ensures name in b.nums && (forall i :: 0 <= i < |items| ==> items[i].name != Some(name)) ==>
              name in AddItems(b, items).nums && AddItems(b, items).nums[name] == b.nums[name]
    decreases |items|
  {
    if items != [] {
      forall i | 0 <= i < |items| - 1 ensures items[1..][i] == items[i + 1] {
      }
      NamesAt(AddItem(b, items[0]), items[1..], n, name);
    }
  }

  /** After parsing, each position is mapped to the last name it was given, and each name to the last
      position. */
  lemma {:induction false} NamesOfItems(b: Build, items: seq<Item>, i: nat)
    requires i < |items| && items[i].name.Some? && forall j :: 0 <= j < |items| ==> items[j].pos <= 127
    ensures PositionsDefined(items)
    ensures var r, name := AddItems(b, items), items[i].name.value;
            && (LastPos(items, i) ==> items[i].pos < |r.names| && r.names[items[i].pos] == name)
            && (LastName(items, i) ==> name in r.nums && r.nums[name] == items[i].pos)
    decreases |items|
  {
    var b1 := AddItem(b, items[0]);
    assert forall j :: 0 <= j < |items| - 1 ==> items[1..][j] == items[j + 1];
    if i == 0 {
      NamesAt(b1, items[1..], items[0].pos, items[0].name.value);
    } else {
      NamesOfItems(b1, items[1..], i - 1);
      assert items[1..][i - 1] == items[i];
    }
  }

  // ----- the characters -----

  /** Digits and name characters, listed. */
  lemma CharactersListed(c: char)
    ensures IsDigit(c) <==> c in "0123456789"
    ensures IsNameChar(c) <==> || c in "0123456789" || c == '_'
                               || c in "abcdefghijklmnopqrstuvwxyz" || c in "ABCDEFGHIJKLMNOPQRSTUVWXYZ"
  {
    DigitsListed(c);
    LettersListed(c);
  }

  lemma DigitsListed(c: char)
    ensures IsDigit(c) <==> c in "0123456789"
  {
  }

  lemma LettersListed(c: char)
    ensures 'a' <= c <= 'z' <==> c in "abcdefghijklmnopqrstuvwxyz"
    ensures 'A' <= c <= 'Z' <==> c in "ABCDEFGHIJKLMNOPQRSTUVWXYZ"
  {
  }
}
