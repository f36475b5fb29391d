/** Substitution of parameters into a parsed template: `Query::proc`, `Query::pprepare` and
    `Query::str`.

    Lines are those of mysql++/include/query.cpp. */
module TemplateSubst {
  import opened Sequences
  import opened TemplateParse

  /** A parameter value: its text, whether it is SQL null, whether its type wants quotes and escaping,
      and whether it has been made ready for the query already. */
  datatype Value = Value(data: string, isNull: bool, quoteQ: bool, escapeQ: bool, processed: bool)

  /** A value made from a string, as new elements and rewritten parameters are. */
  function OfString(s: string): Value { Value(s, false, true, true, false) }

  // ----- one parameter -----

  function Quoted(s: string): string { "'" + s + "'" }

  /** What a value that is not null puts into the query. */
  function Expanded(esc: string -> string, option: char, v: Value): string
  {
    if v.processed then v.data
    else if option == 'q' then
      var inner := if v.escapeQ then esc(v.data) else v.data;
      if v.quoteQ then Quoted(inner) else inner
    else if option == 'Q' && v.quoteQ then Quoted(v.data)
    else v.data
  }

  function Printed(esc: string -> string, option: char, v: Value): string
  {
    if v.isNull then "NULL" else Expanded(esc, option, v)
  }

  /** What becomes of the value if it is printed from a list bound to a query. */
  function Settled(esc: string -> string, option: char, v: Value): Value
  {
    if v.isNull then v else Rewritten(esc, option, v)
  }

  function Rewritten(esc: string -> string, option: char, v: Value): Value
  {
    if v.processed then v
    else if option == 'q' || (option == 'Q' && v.quoteQ) then OfString(Expanded(esc, option, v)).(processed := true)
    else v.(processed := true)
  }

  // ----- the lists -----

  /** The parameters of a call, whether that list is bound to a query, and the query's default
      parameters, a bound list. A call that passes the defaults themselves finds in them what it
      would find with an empty list of its own. */
  datatype Lists = Lists(own: seq<Value>, bound: bool, defaults: seq<Value>) {
    predicate Has(n: int) { 0 <= n < |own| || 0 <= n < |defaults| }

    function At(n: int): Value
      requires Has(n)
    {
      if n < |own| then own[n] else defaults[n]
    }

    /** The lists after the value at `n` was printed. */
    function Use(esc: string -> string, option: char, n: int): Lists
      requires Has(n)
    {
      if n >= |own| then this.(defaults := defaults[n := Settled(esc, option, defaults[n])])
      else if bound then this.(own := own[n := Settled(esc, option, own[n])])
      else this
    }
  }

  /** The text of the query, the lists afterwards, and whether every parameter was there; if one was
      not, an exception leaves the text unfinished. */
  datatype Filled = Filled(text: string, lists: Lists, ok: bool)

  function Fill(esc: string -> string, l: Lists, elems: seq<Elem>): Filled
    decreases |elems|
  {
    if elems == [] then Filled("", l, true)
    else
      var Elem(before, option, n) := elems[0];
      if n < 0 then
        var r := Fill(esc, l, elems[1..]);
        r.(text := before + r.text)
      else if !l.Has(n) then Filled(before + " ERROR", l, false)
      else
        var r := Fill(esc, l.Use(esc, option, n), elems[1..]);
        r.(text := before + (Printed(esc, option, l.At(n)) + r.text))
  }

  // ----- filling again -----

  lemma SettledPrints(esc: string -> string, option: char, other: char, v: Value)
    ensures Printed(esc, other, Settled(esc, option, v)) == Printed(esc, option, v)
    ensures Settled(esc, other, Settled(esc, option, v)) == Settled(esc, option, v)
  {
  }

  /** A value that printing leaves alone, whatever the option. */
  predicate IsSettled(v: Value) { v.isNull || v.processed }

  /** What filling may change in the lists: values of bound lists that are not settled. */
  predicate Frame(l: Lists, m: Lists)
  {
    && |m.own| == |l.own| && m.bound == l.bound && |m.defaults| == |l.defaults|
    && (!l.bound ==> m.own == l.own)
    && (forall n :: 0 <= n < |l.own| && IsSettled(l.own[n]) ==> m.own[n] == l.own[n])
    && (forall n :: 0 <= n < |l.defaults| && IsSettled(l.defaults[n]) ==> m.defaults[n] == l.defaults[n])
  }

  lemma {:induction false} FillFrame(esc: string -> string, l: Lists, elems: seq<Elem>)
    ensures Frame(l, Fill(esc, l, elems).lists)
    decreases |elems|
  {
    if elems != [] {
      var Elem(before, option, n) := elems[0];
      if n < 0 {
        FillFrame(esc, l, elems[1..]);
      } else if l.Has(n) {
        FillFrame(esc, l.Use(esc, option, n), elems[1..]);
        assert Frame(l, l.Use(esc, option, n));
      }
    }
  }

  /** A value used once prints the same later, and is changed no more. */
  lemma UseAgain(esc: string -> string, option: char, n: int, l: Lists, m: Lists)
    requires l.Has(n) && Frame(l.Use(esc, option, n), m)
    ensures m.Has(n) && Printed(esc, option, m.At(n)) == Printed(esc, option, l.At(n))
    ensures m.Use(esc, option, n) == m
  {
    hide Printed, Settled, IsSettled;
    var v := l.At(n);
    SettledPrints(esc, option, option, v);
    assert IsSettled(Settled(esc, option, v)) by { SettledIsSettled(esc, option, v); }
    var u := l.Use(esc, option, n);
    if n >= |l.own| || l.bound {
      assert u.At(n) == Settled(esc, option, v);
      assert m.At(n) == u.At(n);
    } else {
      assert m.At(n) == v;
    }
  }

  lemma SettledIsSettled(esc: string -> string, option: char, v: Value)
    ensures IsSettled(Settled(esc, option, v))
  {
  }

  lemma {:induction false} FillAgainFrom(esc: string -> string, l: Lists, m: Lists, elems: seq<Elem>)
    requires m == Fill(esc, l, elems).lists
    ensures Fill(esc, m, elems) == Fill(esc, l, elems)
    decreases |elems|
  {
    hide Frame, Printed;
    if elems != [] {
      var Elem(before, option, n) := elems[0];
      if n < 0 {
        FillAgainFrom(esc, l, m, elems[1..]);
      } else if l.Has(n) {
        var u := l.Use(esc, option, n);
        FillFrame(esc, u, elems[1..]);
        UseAgain(esc, option, n, l, m);
        FillAgainFrom(esc, u, m, elems[1..]);
      }
    }
  }

  /** Filling the same template again, with the lists as the first time left them, gives the same
      text and the same outcome, and changes the lists no further: nothing is quoted or escaped
      twice. */
  lemma FillTwice(esc: string -> string, l: Lists, elems: seq<Elem>)
    ensures Fill(esc, Fill(esc, l, elems).lists, elems) == Fill(esc, l, elems)
  {
    FillAgainFrom(esc, l, Fill(esc, l, elems).lists, elems);
  }

  // ----- bound and unbound lists -----

  /** No position appears with two different options. */
  predicate OneOptionEach(elems: seq<Elem>)
  {
    forall i, j :: 0 <= i < |elems| && 0 <= j < |elems| && elems[i].num == elems[j].num >= 0
                   ==> elems[i].option == elems[j].option
  }

  /** The two lists print the same wherever the rest of the template uses them. */
  predicate PrintAlike(esc: string -> string, m: seq<Value>, p: seq<Value>, elems: seq<Elem>)
  {
    |m| == |p| &&
    forall i :: 0 <= i < |elems| && 0 <= elems[i].num < |p| ==>
                  Printed(esc, elems[i].option, m[elems[i].num]) == Printed(esc, elems[i].option, p[elems[i].num])
  }

  /** Filling from a bound list and from an unbound one gives the same. */
  predicate SameOutcome(a: Filled, b: Filled)
  {
    a.text == b.text && a.ok == b.ok && a.lists.defaults == b.lists.defaults
  }

  lemma PrintAlikeAfterUse(esc: string -> string, m: seq<Value>, p: seq<Value>, elems: seq<Elem>)
    requires elems != [] && OneOptionEach(elems) && PrintAlike(esc, m, p, elems) && 0 <= elems[0].num < |m|
    ensures var n := elems[0].num;
            PrintAlike(esc, m[n := Settled(esc, elems[0].option, m[n])], p, elems[1..])
  {
    hide Printed, Settled;
    var option, n := elems[0].option, elems[0].num;
    var m1 := m[n := Settled(esc, option, m[n])];
    forall i | 0 <= i < |elems| - 1 && 0 <= elems[1..][i].num < |p|
      ensures var e := elems[1..][i]; Printed(esc, e.option, m1[e.num]) == Printed(esc, e.option, p[e.num])
    {
      assert elems[1..][i] == elems[i + 1];
      SettledPrints(esc, option, option, m[n]);
      assert elems[i + 1].num == elems[0].num ==> elems[i + 1].option == option;
      var k := elems[i + 1].num;
      assert Printed(esc, elems[i + 1].option, m[k]) == Printed(esc, elems[i + 1].option, p[k]);
    }
  }

  lemma RestHasOneOption(elems: seq<Elem>)
    requires elems != [] && OneOptionEach(elems)
    ensures OneOptionEach(elems[1..])
  {
    forall i, j | 0 <= i < |elems| - 1 && 0 <= j < |elems| - 1 && elems[1..][i].num == elems[1..][j].num >= 0
      ensures elems[1..][i].option == elems[1..][j].option
    {
      assert elems[1..][i] == elems[i + 1] && elems[1..][j] == elems[j + 1];
    }
  }

  lemma PrintAlikeRest(esc: string -> string, m: seq<Value>, p: seq<Value>, elems: seq<Elem>)
    requires elems != [] && PrintAlike(esc, m, p, elems)
    ensures PrintAlike(esc, m, p, elems[1..])
    ensures 0 <= elems[0].num < |p| ==>
              Printed(esc, elems[0].option, m[elems[0].num]) == Printed(esc, elems[0].option, p[elems[0].num])
  {
    hide Printed;
    assert forall i :: 0 <= i < |elems| - 1 ==> elems[1..][i] == elems[i + 1];
  }

  lemma {:induction false} OneOptionFillsAlike(esc: string -> string, m: seq<Value>, p: seq<Value>,
                                               d: seq<Value>, elems: seq<Elem>)
    requires OneOptionEach(elems) && PrintAlike(esc, m, p, elems)
    ensures SameOutcome(Fill(esc, Lists(m, true, d), elems), Fill(esc, Lists(p, false, d), elems))
    decreases |elems|
  {
    hide OneOptionEach, PrintAlike, Printed, Settled;
    if elems != [] {
      var Elem(before, option, n) := elems[0];
      RestHasOneOption(elems);
      PrintAlikeRest(esc, m, p, elems);
      var b, u := Lists(m, true, d), Lists(p, false, d);
      assert |m| == |p| by { PrintAlikeLength(esc, m, p, elems); }
      if 0 <= n < |p| {
        var m1 := m[n := Settled(esc, option, m[n])];
        PrintAlikeAfterUse(esc, m, p, elems);
        OneOptionFillsAlike(esc, m1, p, d, elems[1..]);
        assert b.Use(esc, option, n) == Lists(m1, true, d) && u.Use(esc, option, n) == u;
      } else if 0 <= n < |d| {
        var d1 := d[n := Settled(esc, option, d[n])];
        OneOptionFillsAlike(esc, m, p, d1, elems[1..]);
      } else if n < 0 {
        OneOptionFillsAlike(esc, m, p, d, elems[1..]);
      }
    }
  }

  lemma PrintAlikeLength(esc: string -> string, m: seq<Value>, p: seq<Value>, elems: seq<Elem>)
    requires PrintAlike(esc, m, p, elems)
    ensures |m| == |p|
  {
  }

  // ----- two options for one position -----

  /** What a parsed template can hold: options the parser knows, positions in a signed char. */
  predicate FromParser(elems: seq<Elem>)
  {
    forall i :: 0 <= i < |elems| ==> elems[i].option in {' ', 'q', 'Q'} && elems[i].num < 128
  }

  const EmptyNumber := Value("", false, false, false, false)

  /** Values for every position; all of them print as nothing, but for the one at `n`. */
  function Only(n: nat, v: Value): (p: seq<Value>)
    requires n < 128
    ensures |p| == 128 && p[n] == v && forall i :: 0 <= i < 128 && i != n ==> p[i] == EmptyNumber
  {
    seq(128, i => EmptyNumber)[n := v]
  }

  /** The value at `n` is `v`, the others print as nothing. */
  predicate OnlyPrints(p: seq<Value>, n: nat, v: Value)
  {
    |p| == 128 && n < 128 && p[n] == v &&
    forall i :: 0 <= i < 128 && i != n ==> PrintsNothing(p[i])
  }

  predicate PrintsNothing(v: Value) { v == EmptyNumber || (v.data == "" && !v.isNull && v.processed) }

  /** How `x` compares with `y`, upwards or downwards. */
  predicate Reaches(up: bool, x: nat, y: nat) { if up then x >= y else x <= y }

  /** Where position `n` appears, its text is at least (at most) `size` long. */
  predicate AllReach(esc: string -> string, up: bool, size: nat, elems: seq<Elem>, n: nat, v: Value)
  {
    forall i :: 0 <= i < |elems| && elems[i].num == n ==> Reaches(up, |Printed(esc, elems[i].option, v)|, size)
  }

  predicate SomeDiffers(esc: string -> string, size: nat, elems: seq<Elem>, n: nat, v: Value)
  {
    exists i :: 0 <= i < |elems| && elems[i].num == n && |Printed(esc, elems[i].option, v)| != size
  }

  /** Once the bound list holds a settled text of length `size` at `n`, every later use of `n` shifts
      the lengths of the two outcomes apart in the same direction. */
  lemma {:induction false} LengthsPart(esc: string -> string, up: bool, m: seq<Value>, p: seq<Value>, s: Value,
                                       elems: seq<Elem>, n: nat, v: Value)
    requires FromParser(elems) && OnlyPrints(p, n, v) && OnlyPrints(m, n, s)
    requires !s.isNull && s.processed && AllReach(esc, up, |s.data|, elems, n, v)
    ensures var b, u := |Fill(esc, Lists(m, true, []), elems).text|, |Fill(esc, Lists(p, false, []), elems).text|;
            Reaches(up, u, b) && (SomeDiffers(esc, |s.data|, elems, n, v) ==> u != b)
    decreases |elems|
  {
    hide AllReach, SomeDiffers, FromParser, Printed, Settled, OnlyPrints;
    if elems == [] {
      NoneDiffers(esc, |s.data|, elems, n, v);
    } else {
      var Elem(before, option, k) := elems[0];
      SplitFirst(esc, up, |s.data|, elems, n, v);
      if k < 0 {
        LengthsPart(esc, up, m, p, s, elems[1..], n, v);
      } else {
        UseKeepsOnly(esc, m, n, s, option, k);
        UseKeepsOnly(esc, p, n, v, option, k);
        var m1 := m[k := Settled(esc, option, m[k])];
        LengthsPart(esc, up, m1, p, s, elems[1..], n, v);
        assert Lists(m, true, []).Use(esc, option, k) == Lists(m1, true, []);
        FillStep(esc, Lists(m, true, []), elems);
        FillStep(esc, Lists(p, false, []), elems);
      }
    }
  }

  lemma FillStep(esc: string -> string, l: Lists, elems: seq<Elem>)
    requires elems != [] && elems[0].num >= 0 && l.Has(elems[0].num)
    ensures var Elem(before, option, k) := elems[0];
            |Fill(esc, l, elems).text| ==
            |before| + |Printed(esc, option, l.At(k))| + |Fill(esc, l.Use(esc, option, k), elems[1..]).text|
  {
    hide Printed;
  }

  lemma NoneDiffers(esc: string -> string, size: nat, elems: seq<Elem>, n: nat, v: Value)
    requires elems == []
    ensures !SomeDiffers(esc, size, elems, n, v)
  {
  }

  lemma SplitFirst(esc: string -> string, up: bool, size: nat, elems: seq<Elem>, n: nat, v: Value)
    requires elems != [] && FromParser(elems) && AllReach(esc, up, size, elems, n, v)
    ensures FromParser(elems[1..]) && AllReach(esc, up, size, elems[1..], n, v)
    ensures elems[0].num < 128 && elems[0].option in {' ', 'q', 'Q'}
    ensures elems[0].num == n ==> Reaches(up, |Printed(esc, elems[0].option, v)|, size)
    ensures SomeDiffers(esc, size, elems, n, v) ==>
              || SomeDiffers(esc, size, elems[1..], n, v)
              || (elems[0].num == n && |Printed(esc, elems[0].option, v)| != size)
  {
    hide Printed;
    var rest := elems[1..];
    assert forall i :: 0 <= i < |rest| ==> rest[i] == elems[i + 1];
    if SomeDiffers(esc, size, elems, n, v) {
      var i :| 0 <= i < |elems| && elems[i].num == n && |Printed(esc, elems[i].option, v)| != size;
      if i > 0 {
        assert rest[i - 1] == elems[i];
      }
    }
  }

  lemma UseKeepsOnly(esc: string -> string, p: seq<Value>, n: nat, v: Value, option: char, k: nat)
    requires OnlyPrints(p, n, v) && k < 128
    ensures |p| == 128 && n < 128
    ensures k != n ==> Printed(esc, option, p[k]) == "" && OnlyPrints(p[k := Settled(esc, option, p[k])], n, v)
    ensures k == n ==> p[k] == v
    ensures k == n && v.processed && !v.isNull ==>
              Printed(esc, option, v) == v.data && p[k := Settled(esc, option, p[k])] == p
  {
    if k == n {
      assert p[k := p[k]] == p;
    } else {
      assert PrintsNothing(p[k]);
      assert PrintsNothing(Settled(esc, option, p[k]));
    }
  }

  // ----- the witness -----

  /** Escaping leaves nothing alone, and makes some text longer. */
  predicate Lengthens(esc: string -> string, w: string)
  {
    |esc("")| == 0 && |esc(w)| > |w|
  }

  predicate Appears(elems: seq<Elem>, n: nat, option: char)
  {
    exists i :: 0 <= i < |elems| && elems[i].num == n && elems[i].option == option
  }

  /** The first option position `n` is used with. */
  function FirstOption(elems: seq<Elem>, n: nat): char
  {
    if elems == [] then ' ' else if elems[0].num == n then elems[0].option else FirstOption(elems[1..], n)
  }

  /** A value whose texts tell the first option from the others, and how they compare with it. */
  function Telling(first: char, hasBlank: bool, w: string): (r: (bool, Value))
    ensures !r.1.isNull && !r.1.processed
  {
    if first == ' ' then (true, OfString(""))
    else if first == 'q' then (false, OfString(w))
    else if hasBlank then (false, OfString(""))
    else (true, OfString(w))
  }

  lemma TellingTells(esc: string -> string, first: char, hasBlank: bool, w: string, option: char)
    requires Lengthens(esc, w) && first in {' ', 'q', 'Q'} && option in {' ', 'q', 'Q'}
    requires option == ' ' ==> hasBlank
    ensures var (up, v) := Telling(first, hasBlank, w);
            && Reaches(up, |Printed(esc, option, v)|, |Printed(esc, first, v)|)
            && (option != first && (first == 'Q' && hasBlank ==> option == ' ')
                ==> |Printed(esc, option, v)| != |Printed(esc, first, v)|)
  {
  }

  lemma SettledAtFirst(esc: string -> string, m: seq<Value>, n: nat, option: char, v: Value)
    requires OnlyPrints(m, n, v) && !v.isNull && !v.processed
    ensures var s := Settled(esc, option, v);
            && OnlyPrints(m[n := s], n, s) && !s.isNull && s.processed && s.data == Printed(esc, option, v)
  {
  }

  lemma {:induction false} TextsPart(esc: string -> string, up: bool, m: seq<Value>, p: seq<Value>,
                                     elems: seq<Elem>, n: nat, v: Value)
    requires FromParser(elems) && OnlyPrints(p, n, v) && OnlyPrints(m, n, v) && !v.isNull && !v.processed
    requires AllReach(esc, up, |Printed(esc, FirstOption(elems, n), v)|, elems, n, v)
    requires SomeDiffers(esc, |Printed(esc, FirstOption(elems, n), v)|, elems, n, v)
    ensures |Fill(esc, Lists(m, true, []), elems).text| != |Fill(esc, Lists(p, false, []), elems).text|
    decreases |elems|
  {
    hide AllReach, SomeDiffers, FromParser, Printed, Settled, OnlyPrints, Reaches;
    var size := |Printed(esc, FirstOption(elems, n), v)|;
    if elems == [] {
      NoneDiffers(esc, size, elems, n, v);
    } else {
      var Elem(before, option, k) := elems[0];
      SplitFirst(esc, up, size, elems, n, v);
      if k < 0 {
        TextsPart(esc, up, m, p, elems[1..], n, v);
      } else {
        UseKeepsOnly(esc, m, n, v, option, k);
        UseKeepsOnly(esc, p, n, v, option, k);
        var m1 := m[k := Settled(esc, option, m[k])];
        assert Lists(m, true, []).Use(esc, option, k) == Lists(m1, true, []);
        FillStep(esc, Lists(m, true, []), elems);
        FillStep(esc, Lists(p, false, []), elems);
        if k == n {
          SettledAtFirst(esc, m, n, option, v);
          LengthsPart(esc, up, m1, p, Settled(esc, option, v), elems[1..], n, v);
        } else {
          TextsPart(esc, up, m1, p, elems[1..], n, v);
        }
      }
    }
  }

  lemma {:induction false} FirstOptionAppears(elems: seq<Elem>, n: nat, i: nat)
    requires i < |elems| && elems[i].num == n
    ensures Appears(elems, n, FirstOption(elems, n))
  {
    if elems[0].num == n {
      assert elems[0].option == FirstOption(elems, n);
    } else {
      FirstOptionAppears(elems[1..], n, i - 1);
      var j :| 0 <= j < |elems| - 1 && elems[1..][j].num == n && elems[1..][j].option == FirstOption(elems, n);
      assert elems[j + 1] == elems[1..][j];
    }
  }

  /** The text of a bound list and of an unbound one with the same values. */
  predicate BoundAsUnbound(esc: string -> string, p: seq<Value>, d: seq<Value>, elems: seq<Elem>)
  {
    SameOutcome(Fill(esc, Lists(p, true, d), elems), Fill(esc, Lists(p, false, d), elems))
  }

  predicate Fresh(p: seq<Value>)
  {
    forall i :: 0 <= i < |p| ==> !p[i].processed
  }

  /** A position with two options: a value for it that a bound list prints otherwise than an unbound
      one. */
  lemma TwoOptionsTell(esc: string -> string, w: string, elems: seq<Elem>, i: nat, j: nat) returns (p: seq<Value>)
    requires FromParser(elems) && Lengthens(esc, w)
    requires i < |elems| && j < |elems| && elems[i].num == elems[j].num >= 0 && elems[i].option != elems[j].option
    ensures Fresh(p) && !BoundAsUnbound(esc, p, [], elems)
  {
    hide Printed, FirstOption, Telling, Fill;
    var n := elems[i].num;
    FirstOptionAppears(elems, n, i);
    var first, blank := FirstOption(elems, n), Appears(elems, n, ' ');
    var (up, v) := Telling(first, blank, w);
    var size := |Printed(esc, first, v)|;
    forall k | 0 <= k < |elems| && elems[k].num == n
      ensures Reaches(up, |Printed(esc, elems[k].option, v)|, size)
      ensures elems[k].option != first && (first == 'Q' && blank ==> elems[k].option == ' ')
              ==> |Printed(esc, elems[k].option, v)| != size
    {
      TellingTells(esc, first, blank, w, elems[k].option);
    }
    var k := if first == 'Q' && blank then (var k :| 0 <= k < |elems| && elems[k].num == n && elems[k].option == ' '; k)
             else if elems[i].option != first then i else j;
    assert elems[k].num == n && |Printed(esc, elems[k].option, v)| != size;
    p := Only(n, v);
    TextsPart(esc, up, p, p, elems, n, v);
  }

  /** A bound list gives the same query as an unbound list with the same values, whatever the values
      and the defaults, exactly when no position appears with two different options. */
  lemma BoundAsUnboundIff(esc: string -> string, w: string, elems: seq<Elem>)
    requires FromParser(elems) && Lengthens(esc, w)
    ensures (forall p, d :: Fresh(p) ==> BoundAsUnbound(esc, p, d, elems)) <==> OneOptionEach(elems)
  {
    hide Fill, Printed, Fresh, FromParser, Lengthens;
    if OneOptionEach(elems) {
      forall p: seq<Value>, d: seq<Value> | Fresh(p) ensures BoundAsUnbound(esc, p, d, elems) {
        OneOptionFillsAlike(esc, p, p, d, elems);
      }
    } else {
      var i, j :| 0 <= i < |elems| && 0 <= j < |elems| && elems[i].num == elems[j].num >= 0
                  && elems[i].option != elems[j].option;
      var p := TwoOptionsTell(esc, w, elems, i, j);
      assert !BoundAsUnbound(esc, p, [], elems);
    }
  }

  // ----- the query object -----

  /** `SQLQueryParms`: a list, and whether it belongs to a query. */
  class Params {
    var values: seq<Value>
    const bound: bool

    constructor (bound: bool)
      ensures values == [] && this.bound == bound
    {
      values := [];
      this.bound := bound;
    }

    /** `operator[]`: a position beyond the end makes the list longer. */
    method Index(n: nat) returns (v: Value)
      modifies this
      ensures n < |values| && v == values[n]
      ensures n < old(|values|) ==> values == old(values)
      ensures n >= old(|values|) ==> values == old(values) + seq(n + 1 - old(|values|), _ => OfString(""))
    {
      if n >= |values| {
        values := values + seq(n + 1 - |values|, _ => OfString(""));
      }
      v := values[n];
    }
  }

  datatype Outcome = Text(text: string) | BadParamCount

  class Query {
    const esc: string -> string
    const defaults: Params
    var elems: seq<Elem>
    var buffer: string

    constructor (esc: string -> string)
      ensures elems == [] && buffer == "" && fresh(defaults) && defaults.bound && defaults.values == []
      ensures this.esc == esc
    {
      this.esc := esc;
      defaults := new Params(true);
      elems, buffer := [], "";
    }

    /** The lists a call works on. */
    ghost function View(p: Params): Lists
      reads p, defaults
    {
      Lists(if p == defaults then [] else p.values, p.bound, defaults.values)
    }

    /** Lines 366-423, for the value at `n` of list `c`. The value returned is what is printed. */
    method Pprepare(option: char, c: Params, n: nat, replace: bool) returns (ss: Value)
      requires n < |c.values|
      modifies c
      ensures ss.data == Expanded(esc, option, old(c.values[n]))
      ensures c.values == if replace then old(c.values)[n := Rewritten(esc, option, old(c.values[n]))]
                          else old(c.values)
    {
      var s := c.values[n];
      if s.processed {
        assert c.values[n := s] == c.values;
        return s;
      }
      if option == 'q' {
        var temp := if s.quoteQ then "'" else "";
        if s.escapeQ {
          temp := temp + esc(s.data);
        } else {
          temp := temp + s.data;
        }
        if s.quoteQ {
          temp := temp + "'";
        }
        ss := OfString(temp);
        if replace {
          c.values := c.values[n := ss.(processed := true)];
        }
      } else if option == 'Q' && s.quoteQ {
        var temp := "'" + s.data;
        temp := temp + "'";
        ss := OfString(temp);
        if replace {
          c.values := c.values[n := ss.(processed := true)];
        }
      } else {
        if replace {
          c.values := c.values[n := s.(processed := true)];
        }
        ss := s;
      }
    }

    /** One turn of the loop of lines 431-463. */
    method ProcOne(p: Params, e: Elem) returns (ok: bool)
      requires defaults.bound
      modifies this`buffer, p, defaults
      ensures ok == (e.num < 0 || old(View(p)).Has(e.num))
      ensures e.num < 0 ==> buffer == old(buffer) + e.before && View(p) == old(View(p))
      ensures e.num >= 0 && !ok ==> buffer == old(buffer) + e.before + " ERROR" && View(p) == old(View(p))
      ensures e.num >= 0 && ok ==>
                && buffer == old(buffer) + e.before + Printed(esc, e.option, old(View(p)).At(e.num))
                && View(p) == old(View(p)).Use(esc, e.option, e.num)
    {
      buffer := buffer + e.before;
      var num := e.num;
      if num >= 0 {
        var c;
        if num < |p.values| {
          c := p;
        } else if num < |defaults.values| {
          c := defaults;
        } else {
          buffer := buffer + " ERROR";
          return false;
        }
        var param := c.Index(num);
        if param.isNull {
          buffer := buffer + "NULL";
          assert c.values[num := param] == c.values;
        } else {
          var ss := Pprepare(e.option, c, num, c.bound);
          buffer := buffer + ss.data;
        }
      }
      return true;
    }
  
    /** Lines 426-464. False stands for the exception. */
    method Proc(p: Params) returns (ok: bool)
      requires defaults.bound
      modifies this`buffer, p, defaults
      ensures Filled(buffer, View(p), ok) == Fill(esc, old(View(p)), elems)
    {
      hide Printed, Lists.Use;
      buffer := "";
      ghost var all := Fill(esc, View(p), elems);
      var i := 0;
      while i < |elems|
        invariant i <= |elems|
        invariant var r := Fill(esc, View(p), elems[i..]); all == r.(text := buffer + r.text)
      {
        ghost var l, rest, done := View(p), elems[i..], buffer;
        assert rest[0] == elems[i] && rest[1..] == elems[i + 1..];
        FillHead(esc, l, rest, done);
        var here := ProcOne(p, elems[i]);
        if !here {
          return false;
        }
        i := i + 1;
      }
      assert elems[i..] == [];
      return true;
    }

    /** Lines 613-621. */
    method Str(p: Params) returns (r: Outcome)
      requires defaults.bound
      modifies this`buffer, p, defaults
      ensures elems == [] ==> r == Text(old(buffer)) && buffer == old(buffer) && View(p) == old(View(p))
      ensures elems != [] ==>
                && Fill(esc, old(View(p)), elems) == Filled(buffer, View(p), r.Text?)
                && (r.Text? ==> r.text == buffer)
    {
      if elems != [] {
        var ok := Proc(p);
        if !ok {
          return BadParamCount;
        }
      }
      return Text(buffer);
    }

    /** Lines 467-476. */
    method Reset()
      modifies this, defaults
      ensures elems == [] && buffer == "" && defaults.values == []
    {
      buffer, elems := "", [];
      defaults.values := [];
    }
  }

  /** The first element in front of the others. */
  lemma FillHead(esc: string -> string, l: Lists, elems: seq<Elem>, done: string)
    requires elems != []
    ensures var Elem(before, option, n) := elems[0];
            var r := Fill(esc, l, elems);
            && (n < 0 ==> (var t := Fill(esc, l, elems[1..]);
                           r == t.(text := before + t.text) && done + r.text == done + before + t.text))
            && (n >= 0 && !l.Has(n) ==> r == Filled(before + " ERROR", l, false)
                                        && done + r.text == done + before + " ERROR")
            && (n >= 0 && l.Has(n) ==>
                  (var t := Fill(esc, l.Use(esc, option, n), elems[1..]);
                   && r == t.(text := before + (Printed(esc, option, l.At(n)) + t.text))
                   && done + r.text == done + before + Printed(esc, option, l.At(n)) + t.text))
  {
    hide Printed, Lists.Use;
  }

  /** Two calls in a row with the default parameters, or with the same bound list: the same text, or
      the same exception. */
  method StrTwice(q: Query, p: Params) returns (first: Outcome, second: Outcome)
    requires q.defaults.bound
    modifies q`buffer, p, q.defaults
    ensures second == first
  {
    hide Fill;
    first := q.Str(p);
    ghost var once := Fill(q.esc, old(q.View(p)), q.elems);
    second := q.Str(p);
    FillTwice(q.esc, old(q.View(p)), q.elems);
  }

  // ----- what is printed, and from where -----

  /** Text between single quotes. */
  predicate IsQuoted(t: string, inner: string)
  {
    |t| == |inner| + 2 && t[0] == '\'' && t[|t| - 1] == '\'' && t[1..|t| - 1] == inner
  }

  /** SQL null is printed as the word NULL. A value made ready before is printed as it is. Otherwise
      option q escapes what wants escaping and quotes what wants quotes, option Q quotes only, and
      without an option the text is copied. */
  lemma PrintedForms(esc: string -> string, option: char, v: Value)
    ensures var t := Printed(esc, option, v);
            var escaped := if v.escapeQ then esc(v.data) else v.data;
            && (v.isNull ==> t == "NULL")
            && (!v.isNull && v.processed ==> t == v.data)
            && (!v.isNull && !v.processed && option == 'q' ==> if v.quoteQ then IsQuoted(t, escaped) else t == escaped)
            && (!v.isNull && !v.processed && option == 'Q' ==> if v.quoteQ then IsQuoted(t, v.data) else t == v.data)
            && (!v.isNull && !v.processed && option == ' ' ==> t == v.data)
  {
  }

  /** Is every parameter there? */
  predicate AllThere(l: Lists, elems: seq<Elem>)
  {
    forall i :: 0 <= i < |elems| ==> elems[i].num < 0 || l.Has(elems[i].num)
  }

  lemma AllThereSplit(l: Lists, elems: seq<Elem>)
    requires elems != []
    ensures AllThere(l, elems) <==> (elems[0].num < 0 || l.Has(elems[0].num)) && AllThere(l, elems[1..])
  {
    assert forall i :: 0 <= i < |elems| - 1 ==> elems[1..][i] == elems[i + 1];
    assert forall i :: 1 <= i < |elems| ==> elems[i] == elems[1..][i - 1];
  }

  lemma AllThereAfterUse(esc: string -> string, l: Lists, option: char, n: nat, elems: seq<Elem>)
    requires l.Has(n)
    ensures AllThere(l.Use(esc, option, n), elems) <==> AllThere(l, elems)
  {
    hide Settled;
    assert forall k :: l.Use(esc, option, n).Has(k) <==> l.Has(k);
  }

  /** Filling works exactly if every parameter is in one of the lists; otherwise the text ends in an error
      mark. */
  lemma {:induction false} FillWorksIff(esc: string -> string, l: Lists, elems: seq<Elem>)
    ensures var r := Fill(esc, l, elems);
            && (r.ok <==> AllThere(l, elems))
            && (!r.ok ==> |r.text| >= 6 && r.text[|r.text| - 6..] == " ERROR")
    decreases |elems|
  {
    hide AllThere, Printed, Lists.Use;
    if elems == [] {
      assert AllThere(l, elems) by { AllThereNone(l); }
    } else {
      var Elem(before, option, n) := elems[0];
      AllThereSplit(l, elems);
      if n < 0 {
        FillWorksIff(esc, l, elems[1..]);
        EndsBehind(before, Fill(esc, l, elems[1..]).text);
      } else if l.Has(n) {
        FillWorksIff(esc, l.Use(esc, option, n), elems[1..]);
        AllThereAfterUse(esc, l, option, n, elems[1..]);
        var t := Fill(esc, l.Use(esc, option, n), elems[1..]).text;
        EndsBehind(Printed(esc, option, l.At(n)), t);
        EndsBehind(before, Printed(esc, option, l.At(n)) + t);
      } else {
        EndsBehind(before, " ERROR");
      }
    }
  }

  lemma AllThereNone(l: Lists)
    ensures AllThere(l, [])
  {
  }

  lemma EndsBehind(a: string, t: string)
    ensures |t| >= 6 ==> (a + t)[|a + t| - 6..] == t[|t| - 6..]
  {
  }

  /** What one element adds to the text, from an unbound list. */
  function Piece1(esc: string -> string, p: seq<Value>, e: Elem): string
  {
    if 0 <= e.num < |p| then e.before + Printed(esc, e.option, p[e.num]) else e.before
  }

  /** From an unbound list that is long enough the query is, element by element, the text in front and the
      value at the position. */
  lemma {:induction false} FillIsConcat(esc: string -> string, p: seq<Value>, elems: seq<Elem>)
    requires forall i :: 0 <= i < |elems| ==> elems[i].num < |p|
    ensures Fill(esc, Lists(p, false, []), elems).text
            == Flatten(seq(|elems|, i requires 0 <= i < |elems| => Piece1(esc, p, elems[i])))
    decreases |elems|
  {
    hide Printed;
    var parts := seq(|elems|, i requires 0 <= i < |elems| => Piece1(esc, p, elems[i]));
    if elems != [] {
      var rest := elems[1..];
      assert forall i :: 0 <= i < |rest| ==> rest[i] == elems[i + 1];
      FillIsConcat(esc, p, rest);
      assert parts[1..] == seq(|rest|, i requires 0 <= i < |rest| => Piece1(esc, p, rest[i]));
    }
  }

  /** A list of one's own that is long enough comes first: the defaults play no part and stay as they
      are. */
  lemma {:induction false} OwnComesFirst(esc: string -> string, p: seq<Value>, bound: bool, d: seq<Value>,
                                          elems: seq<Elem>)
    requires forall i :: 0 <= i < |elems| ==> elems[i].num < |p|
    ensures var r, alone := Fill(esc, Lists(p, bound, d), elems), Fill(esc, Lists(p, bound, []), elems);
            r == alone.(lists := alone.lists.(defaults := d)) && r.ok
    decreases |elems|
  {
    hide Printed, Settled;
    if elems != [] {
      var Elem(before, option, n) := elems[0];
      assert forall i :: 0 <= i < |elems| - 1 ==> elems[1..][i] == elems[i + 1];
      if n < 0 {
        OwnComesFirst(esc, p, bound, d, elems[1..]);
      } else {
        var p1 := if bound then p[n := Settled(esc, option, p[n])] else p;
        assert Lists(p, bound, d).Use(esc, option, n) == Lists(p1, bound, d);
        assert Lists(p, bound, []).Use(esc, option, n) == Lists(p1, bound, []);
        OwnComesFirst(esc, p1, bound, d, elems[1..]);
      }
    }
  }

  /** Positions beyond the list of one's own are taken from the defaults, which are a bound list: with an
      empty list of one's own they behave as one. */
  lemma {:induction false} DefaultsStandIn(esc: string -> string, bound: bool, d: seq<Value>, elems: seq<Elem>)
    ensures var r, own := Fill(esc, Lists([], bound, d), elems), Fill(esc, Lists(d, true, []), elems);
            r.text == own.text && r.ok == own.ok && r.lists == Lists([], bound, own.lists.own)
    decreases |elems|
  {
    hide Printed, Settled;
    if elems != [] {
      var Elem(before, option, n) := elems[0];
      if n < 0 {
        DefaultsStandIn(esc, bound, d, elems[1..]);
      } else if n < |d| {
        DefaultsStandIn(esc, bound, d[n := Settled(esc, option, d[n])], elems[1..]);
      }
    }
  }

}
