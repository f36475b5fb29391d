/** Parsing of template queries: the scanner of `Query::parse`, and a grammar for it.

    Lines are those of mysql++/include/query.cpp. */
module TemplateParse {
  import opened Options

  // ----- characters, in the C locale -----

  predicate IsDigit(c: char) { '0' <= c <= '9' }

  predicate IsNameChar(c: char)
  {
    IsDigit(c) || 'a' <= c <= 'z' || 'A' <= c <= 'Z' || c == '_'
  }

  function DigitValue(c: char): (n: nat)
    requires IsDigit(c)
    ensures n < 10
  {
    (c - '0') as int
  }

  /** Conversion to a signed char. */
  function ToSignedChar(n: int): int { (n + 128) % 256 - 128 }

  /** One element of a parsed template: the text before the parameter, its option, its position. */
  datatype Elem = Elem(before: string, option: char, num: int)

  // ----- the grammar -----

  /** What the scanner takes in one turn: a literal character, or a parameter with its position as
      written and, if it has one, its name. */
  datatype Piece = Literal(c: char) | Param(pos: nat, option: char, name: Option<string>)

  function Starts(s: string, c: char): bool { s != "" && s[0] == c }

  /** How many of the first `max` characters are digits. */
  function DigitRun(s: string, max: nat): (n: nat)
    ensures n <= |s| && n <= max && forall i :: 0 <= i < n ==> IsDigit(s[i])
  {
    if max == 0 || s == "" || !IsDigit(s[0]) then 0 else 1 + DigitRun(s[1..], max - 1)
  }

  function Number(s: string): nat
    requires forall i :: 0 <= i < |s| ==> IsDigit(s[i])
  {
    if s == "" then 0 else 10 * Number(s[..|s| - 1]) + DigitValue(s[|s| - 1])
  }

  function NameRun(s: string): (n: nat)
    ensures n <= |s| && (forall i :: 0 <= i < n ==> IsNameChar(s[i])) && (n < |s| ==> !IsNameChar(s[n]))
  {
    if s == "" || !IsNameChar(s[0]) then 0 else 1 + NameRun(s[1..])
  }

  function DropIf(s: string, c: char): (r: string)
    ensures |r| <= |s|
  {
    if Starts(s, c) then s[1..] else s
  }

  /** The option after the digits, a blank if there is none, and what follows it. */
  function ScanOption(t: string): (r: (char, string))
    ensures |r.1| <= |t|
  {
    if Starts(t, 'q') || Starts(t, 'Q') then (t[0], t[1..]) else (' ', t)
  }

  /** The name after a colon, if there is a colon, and what follows it; a closing colon is eaten. */
  function ScanNamePart(u: string): (r: (Option<string>, string))
    ensures |r.1| <= |u|
  {
    if Starts(u, ':') then (Some(u[1..][..NameRun(u[1..])]), DropIf(u[1..][NameRun(u[1..])..], ':'))
    else (None, u)
  }

  /** The parameter whose digits start here, and what follows it. */
  function ScanParam(s: string): (r: (Piece, string))
    requires s != "" && IsDigit(s[0])
    ensures |r.1| < |s| && r.0.Param?
  {
    var d := DigitRun(s, 3);
    var (option, u) := ScanOption(s[d..]);
    var (name, rest) := ScanNamePart(u);
    (Param(Number(s[..d]), option, name), rest)
  }

  /** One turn of the scanner. */
  function Scan(s: string): (r: (Piece, string))
    requires s != ""
    ensures |r.1| < |s|
  {
    if s[0] != '%' then (Literal(s[0]), s[1..])
    else if Starts(s[1..], '%') then (Literal('%'), s[2..])
    else if s[1..] != "" && IsDigit(s[1]) then ScanParam(s[1..])
    else (Literal('%'), s[1..])
  }

  /** The pieces of a text, up to its end or its first NUL. */
  function Pieces(s: string): seq<Piece>
    decreases |s|
  {
    if s == "" || s[0] == '\0' then [] else [Scan(s).0] + Pieces(Scan(s).1)
  }

  /** What the scanner has built: literal text not yet attached, elements, and the two maps between
      positions and names. */
  datatype Build = Build(text: string, elems: seq<Elem>, names: seq<string>, nums: map<string, int>)

  /** A named parameter whose position is negative as a signed char would be stored outside the
      vector of names. */
  predicate IsDefined(x: Piece)
  {
    x.Param? && x.name.Some? ==> ToSignedChar(x.pos) >= 0
  }

  function SetName(names: seq<string>, n: nat, name: string): (r: seq<string>)
    ensures n < |r| && r[n] == name
  {
    var grown := if n >= |names| then names + seq(n + 1 - |names|, _ => "") else names;
    grown[n := name]
  }

  function AddPiece(b: Build, x: Piece): Build
    requires IsDefined(x)
  {
    match x
    case Literal(c) => b.(text := b.text + [c])
    case Param(pos, option, name) =>
      var n := ToSignedChar(pos);
      var b1 := b.(text := "", elems := b.elems + [Elem(b.text, option, n)]);
      if name.None? then b1
      else b1.(names := SetName(b.names, n, name.value), nums := b.nums[name.value := n])
  }

  predicate AllDefined(xs: seq<Piece>)
  {
    forall i :: 0 <= i < |xs| ==> IsDefined(xs[i])
  }

  function AddPieces(b: Build, xs: seq<Piece>): Build
    requires AllDefined(xs)
    decreases |xs|
  {
    if xs == [] then b else AddPieces(AddPiece(b, xs[0]), xs[1..])
  }

  /** The text left over becomes a last element without a parameter. */
  function Finish(b: Build): Build
  {
    b.(text := "", elems := b.elems + [Elem(b.text, ' ', -1)])
  }

  // ----- the scanner itself -----

  /** `Query`'s fields that parsing fills. */
  class Parser {
    var elems: seq<Elem>
    var names: seq<string>
    var nums: map<string, int>

    constructor ()
      ensures elems == [] && names == [] && nums == map[]
    {
      elems, names, nums := [], [], map[];
    }

    /** Lines 290-308, from the first digit on: up to three digits, as a number. */
    method ScanNumber(s: string, from: nat) returns (value: nat, to: nat)
      requires from < |s| && IsDigit(s[from])
      ensures to == from + DigitRun(s[from..], 3) && value == Number(s[from..to])
    {
      var num := [s[from]];
      to := from + 1;
      if to < |s| && IsDigit(s[to]) {
        num := num + [s[to]];
        to := to + 1;
        if to < |s| && IsDigit(s[to]) {
          num := num + [s[to]];
          to := to + 1;
        }
      }
      assert num == s[from..to];
      DigitRunIs(s[from..], to - from);
      value := Number(num);
    }

    /** Lines 321-323. */
    method ScanName(s: string, from: nat) returns (name: string, to: nat)
      requires from <= |s|
      ensures to == from + NameRun(s[from..]) && to <= |s| && name == s[from..to]
    {
      name, to := "", from;
      while to < |s| && IsNameChar(s[to])
        invariant from <= to <= |s| && name == s[from..to]
        invariant to + NameRun(s[to..]) == from + NameRun(s[from..])
      {
        assert s[to..][1..] == s[to + 1..];
        name := name + [s[to]];
        to := to + 1;
      }
    }

    ghost function View(text: string): Build
      reads this
    {
      Build(text, elems, names, nums)
    }

    /** Lines 317-340: the name, and the maps. */
    method ScanNamed(s: string, from: nat, n: int) returns (ok: bool, to: nat)
      requires from <= |s|
      modifies this`names, this`nums
      ensures to <= |s|
      ensures var (name, rest) := ScanNamePart(s[from..]);
              && s[to..] == rest && ok == (name.None? || n >= 0)
              && (name.None? ==> names == old(names) && nums == old(nums))
              && (name.Some? && ok ==> names == SetName(old(names), n, name.value))
              && (name.Some? && ok ==> nums == old(nums)[name.value := n])
    {
      hide NameRun;
      var i := from;
      ghost var u := s[from..];
      if i < |s| && s[i] == ':' {
        i := i + 1;
        assert s[i..] == u[1..];
        var name;
        name, i := ScanName(s, i);
        ghost var run := i - from - 1;
        assert s[i..] == u[1..][run..] && name == u[1..][..run];
        if i < |s| && s[i] == ':' {
          i := i + 1;
          assert s[i..] == u[1..][run..][1..];
        }
        if n < 0 {
          return false, i;
        }
        if n >= |names| {
          names := names + seq(n + 1 - |names|, _ => "");
        }
        names := names[n := name];
        nums := nums[name := n];
      }
      return true, i;
    }

    /** Lines 287-345: a parameter, from its first digit on. `ok` is false if the parameter is not
        defined; then nothing more is said. */
    method ScanParameter(s: string, from: nat, str: string) returns (ok: bool, to: nat)
      requires from < |s| && IsDigit(s[from])
      modifies this
      ensures to <= |s| && s[to..] == ScanParam(s[from..]).1
      ensures ok == IsDefined(ScanParam(s[from..]).0)
      ensures ok ==> View("") == AddPiece(old(View(str)), ScanParam(s[from..]).0)
    {
      hide DigitRun, NameRun, Number, ScanNamePart;
      ghost var rest := s[from..];
      var value, i := ScanNumber(s, from);
      var n := ToSignedChar(value);
      assert s[i..] == rest[i - from..] && s[from..i] == rest[..i - from];
      ghost var t := s[i..];
      var option := ' ';
      if i < |s| && (s[i] == 'q' || s[i] == 'Q') {
        option := s[i];
        i := i + 1;
        assert s[i..] == t[1..];
      }
      assert ScanOption(t) == (option, s[i..]);
      ok, to := ScanNamed(s, i, n);
      elems := elems + [Elem(str, option, n)];
    }

    /** Lines 267-363. `ok` is false if some named parameter has a position outside 0..127, modulo
        256; the store on line 338 is then out of bounds. */
    method Parse(s: string) returns (ok: bool)
      modifies this
      ensures ok == AllDefined(Pieces(s))
      ensures ok ==> View("") == Finish(AddPieces(old(View("")), Pieces(s)))
    {
      hide ScanParam, AddPiece;
      ghost var start, all := View(""), Pieces(s);
      var str, i := "", 0;
      assert s[0..] == s;
      while i < |s| && s[i] != '\0'
        invariant i <= |s|
        invariant AllDefined(all) <==> AllDefined(Pieces(s[i..]))
        invariant AllDefined(all) ==> AddPieces(start, all) == AddPieces(View(str), Pieces(s[i..]))
        decreases |s| - i
      {
        ghost var here, x := s[i..], Scan(s[i..]).0;
        PiecesSplit(here, View(str));
        if s[i] == '%' {
          i := i + 1;
          assert s[i..] == here[1..];
          if i < |s| && s[i] == '%' {
            AddLiteral(View(str), '%');
            str := str + [s[i]];
            i := i + 1;
            assert s[i..] == here[2..];
          } else if i < |s| && IsDigit(s[i]) {
            var defined;
            defined, i := ScanParameter(s, i, str);
            if !defined {
              return false;
            }
            str := "";
          } else {
            AddLiteral(View(str), '%');
            str := str + "%";
          }
        } else {
          AddLiteral(View(str), s[i]);
          str := str + [s[i]];
          i := i + 1;
          assert s[i..] == here[1..];
        }
      }
      assert Pieces(s[i..]) == [];
      elems := elems + [Elem(str, ' ', -1)];
      return true;
    }
  }

  lemma AddLiteral(b: Build, c: char)
    ensures AddPiece(b, Literal(c)) == b.(text := b.text + [c])
  {
  }

  /** The next piece in front of the others. */
  lemma PiecesSplit(s: string, b: Build)
    requires s != "" && s[0] != '\0'
    ensures var (x, rest) := Scan(s);
            && (AllDefined(Pieces(s)) <==> IsDefined(x) && AllDefined(Pieces(rest)))
            && (AllDefined(Pieces(s)) ==> AddPieces(b, Pieces(s)) == AddPieces(AddPiece(b, x), Pieces(rest)))
  {
    hide Scan, AddPiece, IsDefined;
    var xs, rest := Pieces(s), Pieces(Scan(s).1);
    assert xs == [Scan(s).0] + rest && xs[1..] == rest;
    assert AllDefined(xs) <==> IsDefined(xs[0]) && AllDefined(rest) by {
      assert forall i :: 0 <= i < |rest| ==> xs[i + 1] == rest[i];
      assert forall i :: 1 <= i < |xs| ==> xs[i] == rest[i - 1];
    }
    if AllDefined(xs) {
      assert AddPieces(b, xs) == AddPieces(AddPiece(b, xs[0]), xs[1..]);
    }
  }

  // ----- the end of the text -----

  /** The text ends at a NUL: `z` starts with one. */
  predicate IsEnd(z: string) { z != "" && z[0] == '\0' }

  lemma {:induction false} RunsInFront(s: string, z: string, max: nat)
    requires IsEnd(z)
    ensures DigitRun(s + z, max) == DigitRun(s, max) && NameRun(s + z) == NameRun(s)
    decreases |s|
  {
    if s == "" {
      assert s + z == z;
    } else {
      assert (s + z)[1..] == s[1..] + z;
      RunsInFront(s[1..], z, if max == 0 then 0 else max - 1);
    }
  }

  lemma PartsInFront(t: string, z: string)
    requires IsEnd(z)
    ensures ScanOption(t + z) == (ScanOption(t).0, ScanOption(t).1 + z)
    ensures ScanNamePart(t + z) == (ScanNamePart(t).0, ScanNamePart(t).1 + z)
  {
    hide NameRun;
    if t == "" {
      assert t + z == z;
    } else {
      var u := t[1..];
      assert (t + z)[1..] == u + z;
      RunsInFront(u, z, 0);
      var n := NameRun(u);
      assert (u + z)[..n] == u[..n] && (u + z)[n..] == u[n..] + z;
      if u[n..] != "" {
        assert (u[n..] + z)[1..] == u[n..][1..] + z;
      } else {
        assert u[n..] + z == z;
      }
    }
  }

  lemma ScanInFront(s: string, z: string)
    requires s != "" && IsEnd(z)
    ensures Scan(s + z) == (Scan(s).0, Scan(s).1 + z)
  {
    hide DigitRun, NameRun, Number, ScanOption, ScanNamePart;
    var t := s[1..];
    assert (s + z)[1..] == t + z;
    if t == "" {
      assert t + z == z;
    } else {
      if t[0] == '%' {
        assert (s + z)[2..] == s[2..] + z;
      }
      if IsDigit(t[0]) {
        RunsInFront(t, z, 3);
        var d := DigitRun(t, 3);
        assert (t + z)[..d] == t[..d] && (t + z)[d..] == t[d..] + z;
        PartsInFront(t[d..], z);
        PartsInFront(ScanOption(t[d..]).1, z);
      }
    }
  }

  /** Parsing stops at the first NUL: what comes from it on is not looked at. */
  lemma {:induction false} PiecesEndAtNul(s: string, z: string)
    requires IsEnd(z)
    ensures Pieces(s + z) == Pieces(s)
    decreases |s|
  {
    hide Scan;
    if s == "" {
      assert s + z == z;
    } else if s[0] != '\0' {
      ScanInFront(s, z);
      PiecesEndAtNul(Scan(s).1, z);
    }
  }

  lemma DigitRunIs(s: string, n: nat)
    requires 1 <= n <= 3 && n <= |s| && (forall i :: 0 <= i < n ==> IsDigit(s[i]))
    requires n == 3 || n == |s| || !IsDigit(s[n])
    ensures DigitRun(s, 3) == n
  {
    assert DigitRun(s, 3) == 1 + DigitRun(s[1..], 2);
    if n >= 2 {
      assert DigitRun(s[1..], 2) == 1 + DigitRun(s[1..][1..], 1);
    }
  }
}
