/** Column references: what a `ColumnRef` node denotes, and the loop that reads one. */
module Columns {
  import opened Common
  import opened Ast

  datatype Column = Column(table: seq<string>, column: string)

  function TableOf(c: Column): string {
    JoinDots(c.table)
  }

  function ParseColumn(tokens: seq<string>): Result<Column> {
    if |tokens| == 0 || |tokens| > 4 then Err(Invalid)
    else Ok(Column(tokens[..|tokens| - 1], tokens[|tokens| - 1]))
  }

  /** A reference the analyser can name: one to four plain identifiers. */
  predicate PlainRef(fields: seq<Field>) {
    1 <= |fields| <= 4 && forall f | f in fields :: f.Name?
  }

  function Text(f: Field): string {
    if f.Name? then f.s else "*"
  }

  /** The column a reference denotes; a field that is no identifier counts as a star. */
  function Denoted(fields: seq<Field>): Column {
    if |fields| == 0 then Column([], "")
    else Column(seq(|fields| - 1, i requires 0 <= i < |fields| - 1 => Text(fields[i])), Text(fields[|fields| - 1]))
  }

  function RefColumn(fields: seq<Field>): (r: Result<Column>)
    ensures r.Ok? <==> PlainRef(fields)
    ensures r.Ok? ==> r.value == Denoted(fields)
  {
    if exists f | f in fields :: !f.Name? then Err(NotImplemented)
    else if 1 <= |fields| <= 4 then Ok(Denoted(fields))
    else Err(Invalid)
  }

  method PNodeColumnRef(fields: seq<Field>) returns (r: Result<Column>)
    ensures r == RefColumn(fields)
  {
    var fqdn: seq<string> := [];
    for i := 0 to |fields|
      invariant |fqdn| == i
      invariant forall k | 0 <= k < i :: fields[k].Name? && fqdn[k] == fields[k].s
    {
      match fields[i] {
        case Name(s) => fqdn := fqdn + [s];
        case _ =>
          assert fields[i] in fields;
          return Err(NotImplemented);
      }
    }
    assert forall f | f in fields :: f.Name?;
    if fqdn != [] {
      assert fqdn[..|fqdn| - 1] == Denoted(fields).table;
    }
    r := ParseColumn(fqdn);
  }

  /** A reference with a star anywhere in it names no column. */
  predicate HasStar(fields: seq<Field>) {
    exists f | f in fields :: f.Star?
  }

  /** The identifiers of a plain reference are its qualifier and its column, in order. */
  lemma DenotedParts(fields: seq<Field>)
    requires PlainRef(fields)
    ensures var parts := Denoted(fields).table + [Denoted(fields).column];
            |parts| == |fields| && forall i | 0 <= i < |fields| :: fields[i] == Name(parts[i])
  {
    assert forall i | 0 <= i < |fields| :: fields[i] in fields;
  }

  /** Whether a function argument ends in a star, as in `count(c.*)`. */
  predicate IsFunctionStarArg(fields: seq<Field>) {
    |fields| > 0 && fields[|fields| - 1].Star?
  }

  /** The column names of a list of references, in order. */
  function Names(cols: seq<Column>): (names: seq<string>)
    ensures |names| == |cols|
    ensures forall i | 0 <= i < |cols| :: names[i] == cols[i].column
  {
    seq(|cols|, i requires 0 <= i < |cols| => cols[i].column)
  }

  method ListNames(cols: seq<Column>) returns (names: seq<string>)
    ensures names == Names(cols)
  {
    var res := new string[|cols|];
    for i := 0 to |cols|
      invariant forall k | 0 <= k < i :: res[k] == cols[k].column
    {
      res[i] := cols[i].column;
    }
    names := res[..];
  }

  // ---- Collecting columns over a list -------------------------------------------------

  /** The concatenation of what `f` finds in each element, or the first error. */
  function Collect<T>(xs: seq<T>, f: T -> Result<seq<Column>>): Result<seq<Column>> {
    if xs == [] then Ok([])
    else
      var front :- Collect(xs[..|xs| - 1], f);
      var last :- f(xs[|xs| - 1]);
      Ok(front + last)
  }

  /** One step of a collecting loop: the next element extends the list or ends the walk. */
  lemma CollectStep<T>(xs: seq<T>, f: T -> Result<seq<Column>>, i: nat)
    requires i < |xs| && Collect(xs[..i], f).Ok?
    ensures Collect(xs[..i + 1], f) == match f(xs[i])
              case Ok(cols) => Ok(Collect(xs[..i], f).value + cols)
              case Err(e) => Err(e)
    ensures f(xs[i]).Err? ==> Collect(xs, f) == Err(f(xs[i]).error)
  {
    assert xs[..i + 1][..i] == xs[..i];
    if f(xs[i]).Err? {
      CollectKeepsError(xs, f, i + 1);
    }
  }

  lemma {:induction false} CollectKeepsError<T>(xs: seq<T>, f: T -> Result<seq<Column>>, n: nat)
    requires n <= |xs| && Collect(xs[..n], f).Err?
    ensures Collect(xs, f) == Collect(xs[..n], f)
    decreases |xs|
  {
    if n < |xs| {
      assert xs[..|xs| - 1][..n] == xs[..n];
      CollectKeepsError(xs[..|xs| - 1], f, n);
    } else {
      assert xs[..n] == xs;
    }
  }

  /** What was found in an element is among what was collected. */
  lemma {:induction false} CollectHas<T>(xs: seq<T>, f: T -> Result<seq<Column>>, i: nat)
    requires i < |xs| && Collect(xs, f).Ok?
    ensures f(xs[i]).Ok?
    ensures forall c | c in f(xs[i]).value :: c in Collect(xs, f).value
  {
    if i < |xs| - 1 {
      CollectHas(xs[..|xs| - 1], f, i);
    }
  }
}
