/** Nested JSON objects as trees of open texts, and how late closing rebuilds the recursive printer. */
module JsonTree {
  import opened JsonText
  import E = JsonElement

  /** One object: its text up to where children or the closing brace go, whether it nests, and what it shows. */
  datatype Object = Object(start: string, nested: bool, event: E.Event)

  function Closer(o: Object): string {
    if o.nested then "]}" else "}"
  }

  datatype Forest = Nil | Grow(earlier: Forest, last: Object, children: Forest)

  function Comma(earlier: Forest): string {
    if earlier.Nil? then "" else ","
  }

  /** The recursive printer. */
  function Print(f: Forest): string {
    match f
    case Nil => ""
    case Grow(earlier, o, children) => Print(earlier) + Comma(earlier) + (o.start + Print(children) + Closer(o))
  }

  /** The rightmost object of every level above d nests: level d can take one more. */
  predicate Fits(f: Forest, d: nat) {
    d == 0 || (f.Grow? && f.last.nested && Fits(f.children, d - 1))
  }

  function Insert(f: Forest, o: Object, d: nat): Forest
    requires Fits(f, d)
  {
    if d == 0 then Grow(f, o, Nil) else f.(children := Insert(f.children, o, d - 1))
  }

  function Flatten(f: Forest): seq<Object> {
    match f
    case Nil => []
    case Grow(earlier, o, children) => Flatten(earlier) + [o] + Flatten(children)
  }

  lemma {:induction false} FlattenInsert(f: Forest, o: Object, d: nat)
    requires Fits(f, d)
    ensures Flatten(Insert(f, o, d)) == Flatten(f) + [o]
  {
    if d > 0 {
      FlattenInsert(f.children, o, d - 1);
      assert (Flatten(f.earlier) + [f.last]) + (Flatten(f.children) + [o]) == Flatten(f) + [o];
    }
  }

  // ----- The rightmost spine -----

  function SpineLength(f: Forest): nat {
    if f.Nil? then 0 else 1 + SpineLength(f.children)
  }

  predicate InnerNested(f: Forest) {
    f.Nil? || (f.children.Grow? ==> f.last.nested && InnerNested(f.children))
  }

  function Innermost(f: Forest): Object
    requires f.Grow?
  {
    if f.children.Nil? then f.last else Innermost(f.children)
  }

  lemma {:induction false} RightmostFits(f: Forest, d: nat)
    requires InnerNested(f)
    requires if f.Nil? then d == 0 else d < SpineLength(f) + if Innermost(f).nested then 1 else 0
    ensures Fits(f, d)
  {
    if d > 0 && f.children.Grow? {
      RightmostFits(f.children, d - 1);
    }
  }

  lemma {:induction false} InsertSpine(f: Forest, o: Object, d: nat)
    requires Fits(f, d) && InnerNested(f)
    ensures var g := Insert(f, o, d);
      g.Grow? && InnerNested(g) && SpineLength(g) == d + 1 && Innermost(g) == o
  {
    if d > 0 {
      InsertSpine(f.children, o, d - 1);
    }
  }

  predicate Deep(f: Forest, k: nat) {
    k == 0 || (f.Grow? && Deep(f.children, k - 1))
  }

  lemma {:induction false} DeepAbove(f: Forest, j: nat, k: nat)
    requires j <= k && Deep(f, k)
    ensures Deep(f, j)
  {
    if j > 0 {
      DeepAbove(f.children, j - 1, k - 1);
    }
  }

  /** The last object on level j. */
  function Spine(f: Forest, j: nat): Object
    requires Deep(f, j + 1)
  {
    if j == 0 then f.last else Spine(f.children, j - 1)
  }

  function Length(f: Forest): nat {
    if f.Nil? then 0 else Length(f.earlier) + 1
  }

  /** How many siblings level j already has. */
  function Siblings(f: Forest, j: nat): nat
    requires Deep(f, j)
  {
    if j == 0 then Length(f) else Siblings(f.children, j - 1)
  }

  lemma {:induction false} SpineOfInsert(f: Forest, o: Object, d: nat)
    requires Fits(f, d)
    ensures var g := Insert(f, o, d);
      Deep(f, d) && Deep(g, d) && Deep(g, d + 1) && Spine(g, d) == o
      && Siblings(g, d) == Siblings(f, d) + 1 && Siblings(g, d + 1) == 0
  {
    if d > 0 {
      SpineOfInsert(f.children, o, d - 1);
    }
  }

  lemma {:induction false} SpineAbove(f: Forest, o: Object, d: nat, j: nat)
    requires Fits(f, d) && j < d
    ensures var g := Insert(f, o, d);
      Deep(f, j) && Deep(f, j + 1) && Deep(g, j) && Deep(g, j + 1)
      && Spine(g, j) == Spine(f, j) && Siblings(g, j) == Siblings(f, j)
  {
    if j > 0 {
      SpineAbove(f.children, o, d - 1, j - 1);
    }
  }

  predicate SameLevel(f: Forest, g: Forest, j: nat) {
    && Deep(f, j) && Deep(f, j + 1) && Deep(g, j) && Deep(g, j + 1)
    && Spine(g, j) == Spine(f, j) && Siblings(g, j) == Siblings(f, j)
  }

  /** Inserting on level d leaves every level above it as it was. */
  lemma SpineKept(f: Forest, o: Object, d: nat, g: Forest)
    requires Fits(f, d) && g == Insert(f, o, d)
    ensures forall j :: 0 <= j < d ==> SameLevel(f, g, j)
  {
    forall j | 0 <= j < d
      ensures SameLevel(f, g, j)
    {
      SpineAbove(f, o, d, j);
    }
  }

  // ----- Text with the innermost objects still open -----

  /** The printed forest without the closers of its last objects on the first k levels. */
  function Partial(f: Forest, k: nat): string
    requires Deep(f, k)
  {
    if k == 0 then Print(f)
    else Print(f.earlier) + Comma(f.earlier) + (f.last.start + Partial(f.children, k - 1))
  }

  lemma Regroup4(a: string, b: string, c: string, d: string)
    ensures a + (b + (c + d)) == a + (b + c) + d
    ensures a + (b + c + d) == a + (b + c) + d
    ensures a + (b + (c + d)) == a + b + c + d
  {
  }

  /** Closing the innermost open object leaves the text of one level fewer open. */
  lemma {:induction false} CloseOne(f: Forest, k: nat)
    requires k > 0 && Deep(f, k)
    ensures Deep(f, k - 1)
    ensures Partial(f, k - 1) == Partial(f, k) + Closer(Spine(f, k - 1))
  {
    DeepAbove(f, k - 1, k);
    var before, closer := Print(f.earlier) + Comma(f.earlier), Closer(Spine(f, k - 1));
    if k == 1 {
      Regroup4(before, f.last.start, Print(f.children), closer);
    } else {
      CloseOne(f.children, k - 1);
      Regroup4(before, f.last.start, Partial(f.children, k - 1), closer);
    }
  }

  function Separator(siblings: nat): string {
    if siblings > 0 then "," else ""
  }

  /** With d levels open, the next object's text is appended behind a comma if it has siblings. */
  lemma {:induction false} OpenOne(f: Forest, o: Object, d: nat)
    requires Fits(f, d) && Deep(f, d) && Deep(Insert(f, o, d), d + 1)
    ensures Partial(Insert(f, o, d), d + 1) == Partial(f, d) + (Separator(Siblings(f, d)) + o.start)
  {
    if d == 0 {
      assert o.start + "" == o.start;
      Regroup4(Print(f), Comma(f), o.start, "");
    } else {
      OpenOne(f.children, o, d - 1);
      var added := Separator(Siblings(f, d)) + o.start;
      Regroup4(Print(f.earlier) + Comma(f.earlier), f.last.start, Partial(f.children, d - 1), added);
    }
  }
}
