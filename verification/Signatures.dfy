/** Type and event signatures, and why two different types never share one. */
module Signatures {
  import opened Wrappers
  import opened Numbers

  /** Resolved types; an array length that is not a constant is None, and the types without a signature are Other. */
  datatype Type =
    | Integer(signed: bool, bitSize: nat)
    | FieldElement
    | Bool
    | Array(length: Option<nat>, element: Type)
    | Struct(name: string, fields: seq<(string, Type)>)
    | Tuple(types: seq<Type>)
    | Other

  function Join(parts: seq<string>): (r: string)
  {
    if parts == [] then ""
    else if |parts| == 1 then parts[0]
    else parts[0] + "," + Join(parts[1..])
  }

  /** The types that have a signature. */
  predicate Supported(t: Type)
  {
    match t
    case Array(length, element) => length.Some? && Supported(element)
    case Struct(_, fields) => forall i :: 0 <= i < |fields| ==> Supported(fields[i].1)
    case Tuple(types) => forall i :: 0 <= i < |types| ==> Supported(types[i])
    case Other => false
    case _ => true
  }

  /** `signature_of_type`. */
  function SignatureOfType(t: Type): (s: string)
    requires Supported(t)
  {
    match t
    case Integer(signed, bitSize) => (if signed then "i" else "u") + Decimal(bitSize)
    case FieldElement => "Field"
    case Bool => "bool"
    case Array(length, element) => "[" + SignatureOfType(element) + ";" + Decimal(length.value) + "]"
    case Struct(_, fields) => "(" + Join(seq(|fields|, i requires 0 <= i < |fields| => SignatureOfType(fields[i].1))) + ")"
    case Tuple(types) => "(" + Join(seq(|types|, i requires 0 <= i < |types| => SignatureOfType(types[i]))) + ")"
  }

  // ---------------------------------------------------------------- what a signature says

  /** A type up to the names of structs and fields: structs are the tuples of their fields. */
  datatype Layout =
    | IntegerLayout(signed: bool, bitSize: nat)
    | FieldLayout
    | BoolLayout
    | ArrayLayout(length: nat, element: Layout)
    | TupleLayout(parts: seq<Layout>)

  function LayoutOf(t: Type): (l: Layout)
    requires Supported(t)
  {
    match t
    case Integer(signed, bitSize) => IntegerLayout(signed, bitSize)
    case FieldElement => FieldLayout
    case Bool => BoolLayout
    case Array(length, element) => ArrayLayout(length.value, LayoutOf(element))
    case Struct(_, fields) => TupleLayout(seq(|fields|, i requires 0 <= i < |fields| => LayoutOf(fields[i].1)))
    case Tuple(types) => TupleLayout(seq(|types|, i requires 0 <= i < |types| => LayoutOf(types[i])))
  }

  function Print(l: Layout): (s: string)
    ensures |s| > 0
    decreases l, 0
  {
    match l
    case IntegerLayout(signed, bitSize) => (if signed then "i" else "u") + Decimal(bitSize)
    case FieldLayout => "Field"
    case BoolLayout => "bool"
    case ArrayLayout(length, element) => "[" + Print(element) + ";" + Decimal(length) + "]"
    case TupleLayout(parts) => "(" + Join(PrintAll(parts)) + ")"
  }

  function PrintAll(ls: seq<Layout>): (r: seq<string>)
    ensures |r| == |ls| && forall i :: 0 <= i < |ls| ==> r[i] == Print(ls[i])
    decreases ls, 1
  {
    seq(|ls|, i requires 0 <= i < |ls| => Print(ls[i]))
  }

  /** The signature is the printed layout. */
  lemma {:induction false} SignaturePrints(t: Type)
    requires Supported(t)
    ensures SignatureOfType(t) == Print(LayoutOf(t))
  {
    match t
    case Array(length, element) =>
      SignaturePrints(element);
    case Struct(_, fields) =>
      forall i | 0 <= i < |fields|
        ensures SignatureOfType(fields[i].1) == Print(LayoutOf(fields[i].1))
      {
        SignaturePrints(fields[i].1);
      }
      var parts := LayoutOf(t).parts;
      assert PrintAll(parts) == seq(|fields|, i requires 0 <= i < |fields| => SignatureOfType(fields[i].1));
    case Tuple(types) =>
      forall i | 0 <= i < |types|
        ensures SignatureOfType(types[i]) == Print(LayoutOf(types[i]))
      {
        SignaturePrints(types[i]);
      }
      var parts := LayoutOf(t).parts;
      assert PrintAll(parts) == seq(|types|, i requires 0 <= i < |types| => SignatureOfType(types[i]));
    case _ =>
  }

  // ---------------------------------------------------------------- signatures read uniquely

  /** Text that cannot prolong a numeral. */
  predicate NoDigitFirst(x: string)
  {
    x == "" || !IsDigit(x[0])
  }

  /** The first character tells the kind of a layout. */
  function FirstChar(l: Layout): (c: char)
  {
    match l
    case IntegerLayout(signed, _) => if signed then 'i' else 'u'
    case FieldLayout => 'F'
    case BoolLayout => 'b'
    case ArrayLayout(_, _) => '['
    case TupleLayout(_) => '('
  }

  lemma PrintStarts(l: Layout)
    ensures Print(l)[0] == FirstChar(l)
  {
  }

  lemma SameStart(a: Layout, x: string, b: Layout, y: string)
    requires Print(a) + x == Print(b) + y
    ensures FirstChar(a) == FirstChar(b)
  {
    PrintStarts(a);
    PrintStarts(b);
    assert (Print(a) + x)[0] == (Print(b) + y)[0];
  }

  lemma DropFirst(c: char, x: string, y: string)
    requires [c] + x == [c] + y
    ensures x == y
  {
    assert ([c] + x)[1..] == ([c] + y)[1..];
  }

  /** What stands between the parts of a list after its first and the text behind the list. */
  function AfterFirst(ls: seq<Layout>, x: string): (r: string)
    requires ls != []
    ensures NoDigitFirst(r)
  {
    if |ls| == 1 then ")" + x else "," + (Join(PrintAll(ls[1..])) + ")" + x)
  }

  lemma CommaText(p: string, rest: string, x: string)
    ensures p + "," + rest + ")" + x == p + ("," + (rest + ")" + x))
  {
    assert p + "," + rest + ")" + x == p + ("," + (rest + ")" + x));
  }

  lemma CloseText(p: string, x: string)
    ensures p + ")" + x == p + (")" + x)
  {
  }

  lemma ListText(ls: seq<Layout>, x: string)
    requires ls != []
    ensures Join(PrintAll(ls)) + ")" + x == Print(ls[0]) + AfterFirst(ls, x)
  {
    var parts := PrintAll(ls);
    if |ls| == 1 {
      CloseText(parts[0], x);
    } else {
      assert parts[1..] == PrintAll(ls[1..]);
      CommaText(parts[0], Join(parts[1..]), x);
    }
  }

  lemma EmptyListText(ls: seq<Layout>, x: string, y: string)
    requires ")" + x == Join(PrintAll(ls)) + ")" + y
    ensures ls == [] && x == y
  {
    if ls != [] {
      ListText(ls, y);
      PrintStarts(ls[0]);
      assert (Print(ls[0]) + AfterFirst(ls, y))[0] == ')';
    } else {
      assert Join(PrintAll(ls)) + ")" + y == ")" + y;
      DropFirst(')', x, y);
    }
  }

  lemma {:induction false} ListReadsUniquely(a: seq<Layout>, x: string, b: seq<Layout>, y: string)
    requires Join(PrintAll(a)) + ")" + x == Join(PrintAll(b)) + ")" + y
    ensures a == b && x == y
    decreases a, 1
  {
    if a == [] {
      assert Join(PrintAll(a)) + ")" + x == ")" + x;
      EmptyListText(b, x, y);
    } else if b == [] {
      assert Join(PrintAll(b)) + ")" + y == ")" + y;
      EmptyListText(a, y, x);
    } else {
      ListText(a, x);
      ListText(b, y);
      ReadsUniquely(a[0], AfterFirst(a, x), b[0], AfterFirst(b, y));
      assert AfterFirst(a, x)[0] == AfterFirst(b, y)[0];
      if |a| == 1 {
        DropFirst(')', x, y);
      } else {
        DropFirst(',', Join(PrintAll(a[1..])) + ")" + x, Join(PrintAll(b[1..])) + ")" + y);
        ListReadsUniquely(a[1..], x, b[1..], y);
      }
      assert a == [a[0]] + a[1..] && b == [b[0]] + b[1..];
    }
  }

  lemma {:induction false} ArrayReadsUniquely(a: Layout, n: nat, x: string, b: Layout, m: nat, y: string)
    requires Print(ArrayLayout(n, a)) + x == Print(ArrayLayout(m, b)) + y
    ensures a == b && n == m && x == y
    decreases a, 2
  {
    hide Decimal;
    var tail, tail' := Decimal(n) + ("]" + x), Decimal(m) + ("]" + y);
    assert Print(ArrayLayout(n, a)) + x == "[" + (Print(a) + (";" + tail));
    assert Print(ArrayLayout(m, b)) + y == "[" + (Print(b) + (";" + tail'));
    DropFirst('[', Print(a) + (";" + tail), Print(b) + (";" + tail'));
    ReadsUniquely(a, ";" + tail, b, ";" + tail');
    DropFirst(';', tail, tail');
    DecimalUniquelyReadable(n, "]" + x, m, "]" + y);
    DropFirst(']', x, y);
  }

  lemma {:induction false} TupleReadsUniquely(a: seq<Layout>, x: string, b: seq<Layout>, y: string)
    requires Print(TupleLayout(a)) + x == Print(TupleLayout(b)) + y
    ensures a == b && x == y
    decreases a, 2
  {
    assert Print(TupleLayout(a)) + x == "(" + (Join(PrintAll(a)) + ")" + x);
    assert Print(TupleLayout(b)) + y == "(" + (Join(PrintAll(b)) + ")" + y);
    DropFirst('(', Join(PrintAll(a)) + ")" + x, Join(PrintAll(b)) + ")" + y);
    ListReadsUniquely(a, x, b, y);
  }

  lemma IntegerReadsUniquely(signed: bool, n: nat, x: string, m: nat, y: string)
    requires NoDigitFirst(x) && NoDigitFirst(y)
    requires Print(IntegerLayout(signed, n)) + x == Print(IntegerLayout(signed, m)) + y
    ensures n == m && x == y
  {
    var c := if signed then 'i' else 'u';
    assert Print(IntegerLayout(signed, n)) + x == [c] + (Decimal(n) + x);
    assert Print(IntegerLayout(signed, m)) + y == [c] + (Decimal(m) + y);
    DropFirst(c, Decimal(n) + x, Decimal(m) + y);
    DecimalUniquelyReadable(n, x, m, y);
  }

  lemma SamePrefix(s: string, x: string, y: string)
    requires s + x == s + y
    ensures x == y
  {
    assert (s + x)[|s|..] == (s + y)[|s|..];
  }

  /** A printed layout followed by any text that does not start with a digit can be read in only one way. */
  lemma {:induction false} ReadsUniquely(a: Layout, x: string, b: Layout, y: string)
    requires NoDigitFirst(x) && NoDigitFirst(y)
    requires Print(a) + x == Print(b) + y
    ensures a == b && x == y
    decreases a, 0
  {
    SameStart(a, x, b, y);
    match a
    case IntegerLayout(signed, n) =>
      IntegerReadsUniquely(signed, n, x, b.bitSize, y);
    case FieldLayout =>
      SamePrefix("Field", x, y);
    case BoolLayout =>
      SamePrefix("bool", x, y);
    case ArrayLayout(n, element) =>
      ArrayReadsUniquely(element, n, x, b.element, b.length, y);
    case TupleLayout(parts) =>
      TupleReadsUniquely(parts, x, b.parts, y);
  }

  /** Two supported types have the same signature exactly when they are the same up to reading structs as tuples. */
  lemma SignatureInjective(s: Type, t: Type)
    requires Supported(s) && Supported(t)
    ensures SignatureOfType(s) == SignatureOfType(t) <==> LayoutOf(s) == LayoutOf(t)
  {
    SignaturePrints(s);
    SignaturePrints(t);
    if SignatureOfType(s) == SignatureOfType(t) {
      assert Print(LayoutOf(s)) + "" == Print(LayoutOf(t)) + "";
      ReadsUniquely(LayoutOf(s), "", LayoutOf(t), "");
    }
  }

  // ---------------------------------------------------------------- events

  /** An event: a struct name and the types of its fields. */
  datatype Event = Event(name: string, fields: seq<(string, Type)>)

  predicate SupportedEvent(e: Event)
  {
    forall i :: 0 <= i < |e.fields| ==> Supported(e.fields[i].1)
  }

  /** `event_signature`. */
  function EventSignature(e: Event): (s: string)
    requires SupportedEvent(e)
  {
    e.name + "(" + Join(seq(|e.fields|, i requires 0 <= i < |e.fields| => SignatureOfType(e.fields[i].1))) + ")"
  }

  function FieldLayouts(e: Event): (r: seq<Layout>)
    requires SupportedEvent(e)
    ensures |r| == |e.fields| && forall i :: 0 <= i < |r| ==> r[i] == LayoutOf(e.fields[i].1)
  {
    seq(|e.fields|, i requires 0 <= i < |e.fields| => LayoutOf(e.fields[i].1))
  }

  /** Identifiers have no parenthesis. */
  predicate IsName(name: string)
  {
    '(' !in name
  }

  lemma EventPrints(e: Event)
    requires SupportedEvent(e)
    ensures EventSignature(e) == e.name + ("(" + (Join(PrintAll(FieldLayouts(e))) + ")" + ""))
  {
    forall i | 0 <= i < |e.fields|
      ensures SignatureOfType(e.fields[i].1) == Print(LayoutOf(e.fields[i].1))
    {
      SignaturePrints(e.fields[i].1);
    }
    assert PrintAll(FieldLayouts(e)) == seq(|e.fields|, i requires 0 <= i < |e.fields| => SignatureOfType(e.fields[i].1));
  }

  lemma NameEnds(a: string, x: string, b: string, y: string)
    requires IsName(a) && IsName(b) && a + ("(" + x) == b + ("(" + y)
    ensures a == b && x == y
  {
    var s := a + ("(" + x);
    assert s[|a|] == '(' && s[|b|] == '(';
    assert forall i :: 0 <= i < |a| ==> s[i] == a[i];
    assert forall i :: 0 <= i < |b| ==> s[i] == b[i];
    assert |a| == |b|;
    assert a == s[..|a|] == b;
    SamePrefix(a, "(" + x, "(" + y);
    DropFirst('(', x, y);
  }

  /** Two events have the same signature exactly when they have the same name and the same field layouts. */
  lemma EventSignatureInjective(e: Event, f: Event)
    requires SupportedEvent(e) && SupportedEvent(f) && IsName(e.name) && IsName(f.name)
    ensures EventSignature(e) == EventSignature(f) <==> e.name == f.name && FieldLayouts(e) == FieldLayouts(f)
  {
    EventPrints(e);
    EventPrints(f);
    if EventSignature(e) == EventSignature(f) {
      NameEnds(e.name, Join(PrintAll(FieldLayouts(e))) + ")" + "", f.name, Join(PrintAll(FieldLayouts(f))) + ")" + "");
      ListReadsUniquely(FieldLayouts(e), "", FieldLayouts(f), "");
    }
  }
}
