// Rendering of interpolated components as plain text (the `td_string!` helpers):
// a formatter is a text sink, and every user-supplied display function
// (an attribute, the children, a closure component) is modelled by the text it
// writes and whether it then returns `Ok`.
module Display {

  /** What a `DynDisplayFn` does when called: it writes `text`, then returns
    * `Ok(())` when `ok` holds and an error otherwise. */
  datatype Writer = Writer(text: string, ok: bool)

  /** A display function that writes nothing and succeeds. */
  const Done: Writer := Writer("", true)

  /** Literal text written by `write!`, which cannot fail on its own. */
  function Lit(s: string): Writer { Writer(s, true) }

  /** `a?; b`: run `b` only when `a` succeeded. */
  function Then(a: Writer, b: Writer): (r: Writer)
    ensures a.ok ==> r.ok == b.ok
    ensures !a.ok ==> r == a
  {
    if a.ok then Writer(a.text + b.text, b.ok) else a
  }

  lemma ThenAssoc(a: Writer, b: Writer, c: Writer)
    ensures Then(Then(a, b), c) == Then(a, Then(b, c))
  {
    if a.ok && b.ok {
      assert (a.text + b.text) + c.text == a.text + (b.text + c.text);
    }
  }

  /** `Attributes::fmt`: each attribute in turn, stopping at the first error. */
  function Sequence(ws: seq<Writer>): Writer
  {
    if |ws| == 0 then Done else Then(Sequence(ws[..|ws| - 1]), ws[|ws| - 1])
  }

  function ConcatTexts(ws: seq<Writer>): string
  {
    if |ws| == 0 then "" else ConcatTexts(ws[..|ws| - 1]) + ws[|ws| - 1].text
  }

  /** Displaying two lists of attributes one after the other is displaying
    * their concatenation. */
  lemma {:induction false} SequenceAppend(a: seq<Writer>, b: seq<Writer>)
    ensures Sequence(a + b) == Then(Sequence(a), Sequence(b))
    decreases |b|
  {
    if |b| == 0 {
      assert a + b == a;
    } else {
      var b' := b[..|b| - 1];
      assert (a + b)[..|a + b| - 1] == a + b';
      SequenceAppend(a, b');
      ThenAssoc(Sequence(a), Sequence(b'), b[|b| - 1]);
    }
  }

  /** When every attribute succeeds, the display is the in-order concatenation
    * of what each writes; otherwise it stops with an error. */
  lemma {:induction false} SequenceAllOk(ws: seq<Writer>)
    ensures (forall k :: 0 <= k < |ws| ==> ws[k].ok) <==> Sequence(ws).ok
    ensures Sequence(ws).ok ==> Sequence(ws).text == ConcatTexts(ws)
  {
    if |ws| > 0 {
      SequenceAllOk(ws[..|ws| - 1]);
      if Sequence(ws).ok {
        forall k | 0 <= k < |ws| ensures ws[k].ok {
          if k < |ws| - 1 {
            assert ws[..|ws| - 1][k] == ws[k];
          }
        }
      }
    }
  }

  /** The things that can be displayed as a component: a tag name (`str`,
    * `String`, `&str` and `&String` alike), a closure receiving the attributes
    * and the children, and a `DisplayComp` with a name and attribute pairs. */
  datatype Component =
    | Tag(name: string)
    | Closure(render: (seq<Writer>, Writer) -> Writer)
    | Comp(compName: string, pairs: seq<(string, string)>)

  /** `DisplayComp::write_attrs`: ` k="v"` for each pair, in order. */
  function PairsText(pairs: seq<(string, string)>): string
  {
    if |pairs| == 0 then ""
    else PairsText(pairs[..|pairs| - 1]) + " " + pairs[|pairs| - 1].0 + "=\"" + pairs[|pairs| - 1].1 + "\""
  }

  /** `DisplayComponent::fmt`. */
  function Render(c: Component, attrs: seq<Writer>, children: Writer): Writer
  {
    match c
    case Tag(n) =>
      Then(Lit("<" + n), Then(Sequence(attrs), Then(Lit(">"), Then(children, Lit("</" + n + ">")))))
    case Closure(f) => f(attrs, children)
    case Comp(n, pairs) =>
      Then(Lit("<" + n), Then(Sequence(attrs),
        Then(Lit(PairsText(pairs)), Then(Lit(">"), Then(children, Lit("</" + n + ">"))))))
  }

  /** `DisplayComponent::fmt_self_closing`. */
  function RenderSelfClosing(c: Component, attrs: seq<Writer>): Writer
  {
    match c
    case Tag(n) => Then(Lit("<" + n), Then(Sequence(attrs), Lit(" />")))
    case Closure(f) => f(attrs, Done)
    case Comp(n, pairs) => Then(Lit("<" + n), Then(Sequence(attrs), Then(Lit(PairsText(pairs)), Lit(" />"))))
  }

  /** A tag renders as `<n` + attributes + `>` + children + `</n>` when nothing
    * fails; a failing attribute stops the output right after it. */
  lemma TagRender(n: string, attrs: seq<Writer>, children: Writer)
    ensures Sequence(attrs).ok && children.ok ==>
      Render(Tag(n), attrs, children) == Writer("<" + n + ConcatTexts(attrs) + ">" + children.text + "</" + n + ">", true)
    ensures !Sequence(attrs).ok ==>
      Render(Tag(n), attrs, children) == Writer("<" + n + Sequence(attrs).text, false)
  {
    SequenceAllOk(attrs);
  }

  /** A self-closing tag renders as `<n` + attributes + ` />`. */
  lemma TagRenderSelfClosing(n: string, attrs: seq<Writer>)
    ensures Sequence(attrs).ok ==>
      RenderSelfClosing(Tag(n), attrs) == Writer("<" + n + ConcatTexts(attrs) + " />", true)
  {
    SequenceAllOk(attrs);
  }

  /** A closure component closes itself by rendering with empty children. */
  lemma ClosureSelfClosing(f: (seq<Writer>, Writer) -> Writer, attrs: seq<Writer>)
    ensures RenderSelfClosing(Closure(f), attrs) == Render(Closure(f), attrs, Writer("", true))
  {
  }

  /** A `DisplayComp` with no pairs renders exactly like the bare tag name. */
  lemma CompWithoutPairs(n: string, attrs: seq<Writer>, children: Writer)
    ensures Render(Comp(n, []), attrs, children) == Render(Tag(n), attrs, children)
    ensures RenderSelfClosing(Comp(n, []), attrs) == RenderSelfClosing(Tag(n), attrs)
  {
    var t := Lit("");
    assert Then(t, Then(Lit(">"), Then(children, Lit("</" + n + ">")))) == Then(Lit(">"), Then(children, Lit("</" + n + ">")));
    assert Then(t, Lit(" />")) == Lit(" />");
  }

  /** The pairs of a `DisplayComp` are written between the attributes and `>`. */
  lemma CompRender(n: string, pairs: seq<(string, string)>, attrs: seq<Writer>, children: Writer)
    ensures Sequence(attrs).ok && children.ok ==>
      Render(Comp(n, pairs), attrs, children)
        == Writer("<" + n + ConcatTexts(attrs) + PairsText(pairs) + ">" + children.text + "</" + n + ">", true)
  {
    SequenceAllOk(attrs);
  }

  /** `<n` + attributes + pairs. */
  function Opening(n: string, attrs: seq<Writer>, pairs: seq<(string, string)>): Writer {
    Then(Lit("<" + n), Then(Sequence(attrs), Lit(PairsText(pairs))))
  }

  /** `>` + children + `</n>`. */
  function Closing(n: string, children: Writer): Writer {
    Then(Lit(">"), Then(children, Lit("</" + n + ">")))
  }

  lemma RenderSplits(c: Component, attrs: seq<Writer>, children: Writer)
    requires !c.Closure?
    ensures c.Tag? ==> Render(c, attrs, children) == Then(Opening(c.name, attrs, []), Closing(c.name, children))
    ensures c.Comp? ==> Render(c, attrs, children) == Then(Opening(c.compName, attrs, c.pairs), Closing(c.compName, children))
  {
    if c.Tag? {
      var n := c.name;
      assert Then(Lit(""), Closing(n, children)) == Closing(n, children);
      ThenAssoc(Sequence(attrs), Lit(""), Closing(n, children));
      ThenAssoc(Lit("<" + n), Then(Sequence(attrs), Lit("")), Closing(n, children));
    } else {
      var n := c.compName;
      ThenAssoc(Sequence(attrs), Lit(PairsText(c.pairs)), Closing(n, children));
      ThenAssoc(Lit("<" + n), Then(Sequence(attrs), Lit(PairsText(c.pairs))), Closing(n, children));
    }
  }

  lemma SelfClosingSplits(c: Component, attrs: seq<Writer>)
    requires !c.Closure?
    ensures c.Tag? ==> RenderSelfClosing(c, attrs) == Then(Opening(c.name, attrs, []), Lit(" />"))
    ensures c.Comp? ==> RenderSelfClosing(c, attrs) == Then(Opening(c.compName, attrs, c.pairs), Lit(" />"))
  {
    if c.Tag? {
      var n := c.name;
      assert Then(Lit(""), Lit(" />")) == Lit(" />");
      ThenAssoc(Sequence(attrs), Lit(""), Lit(" />"));
      ThenAssoc(Lit("<" + n), Then(Sequence(attrs), Lit("")), Lit(" />"));
    } else {
      var n := c.compName;
      ThenAssoc(Sequence(attrs), Lit(PairsText(c.pairs)), Lit(" />"));
      ThenAssoc(Lit("<" + n), Then(Sequence(attrs), Lit(PairsText(c.pairs))), Lit(" />"));
    }
  }

  /** A `fmt::Formatter` writing into a string. */
  class Formatter {
    var out: string

    constructor()
      ensures out == ""
    {
      out := "";
    }

    /** `Attributes::fmt`. */
    method WriteAttributes(attrs: seq<Writer>) returns (ok: bool)
      modifies this
      ensures out == old(out) + Sequence(attrs).text && ok == Sequence(attrs).ok
    {
      var i := 0;
      ok := true;
      ghost var w := Done;
      while i < |attrs| && ok
        invariant 0 <= i <= |attrs|
        invariant w == Sequence(attrs[..i]) && ok == w.ok
        invariant out == old(out) + w.text
      {
        assert attrs[..i + 1][..i] == attrs[..i];
        out := out + attrs[i].text;
        w := Then(w, attrs[i]);
        ok := attrs[i].ok;
        i := i + 1;
      }
      SequenceAppend(attrs[..i], attrs[i..]);
      assert attrs[..i] + attrs[i..] == attrs;
    }

    /** `DisplayComp::write_attrs`. */
    method WritePairs(pairs: seq<(string, string)>)
      modifies this
      ensures out == old(out) + PairsText(pairs)
    {
      var i := 0;
      while i < |pairs|
        invariant 0 <= i <= |pairs|
        invariant out == old(out) + PairsText(pairs[..i])
      {
        assert pairs[..i + 1][..i] == pairs[..i];
        out := out + " " + pairs[i].0 + "=\"" + pairs[i].1 + "\"";
        i := i + 1;
      }
      assert pairs[..|pairs|] == pairs;
    }

    /** `<n` + attributes + pairs, the opening shared by `fmt` and
      * `fmt_self_closing`. */
    method Open(n: string, attrs: seq<Writer>, pairs: seq<(string, string)>) returns (ok: bool)
      modifies this
      ensures out == old(out) + Opening(n, attrs, pairs).text && ok == Opening(n, attrs, pairs).ok
    {
      out := out + "<" + n;
      ok := WriteAttributes(attrs);
      if ok {
        WritePairs(pairs);
      }
    }

    /** `>` + children + `</n>`, the end of `fmt`. */
    method Close(n: string, children: Writer) returns (ok: bool)
      modifies this
      ensures out == old(out) + Closing(n, children).text && ok == Closing(n, children).ok
    {
      out := out + ">" + children.text;
      ok := children.ok;
      if ok {
        out := out + "</" + n + ">";
      }
    }

    /** `DisplayComponent::fmt` for each kind of component. */
    method Fmt(c: Component, attrs: seq<Writer>, children: Writer) returns (ok: bool)
      modifies this
      ensures out == old(out) + Render(c, attrs, children).text && ok == Render(c, attrs, children).ok
    {
      match c {
        case Closure(f) =>
          var w := f(attrs, children);
          out := out + w.text;
          ok := w.ok;
        case Tag(n) =>
          RenderSplits(c, attrs, children);
          ok := Open(n, attrs, []);
          if ok {
            ok := Close(n, children);
          }
        case Comp(n, pairs) =>
          RenderSplits(c, attrs, children);
          ok := Open(n, attrs, pairs);
          if ok {
            ok := Close(n, children);
          }
      }
    }

    /** `DisplayComponent::fmt_self_closing` for each kind of component. */
    method FmtSelfClosing(c: Component, attrs: seq<Writer>) returns (ok: bool)
      modifies this
      ensures out == old(out) + RenderSelfClosing(c, attrs).text && ok == RenderSelfClosing(c, attrs).ok
    {
      match c {
        case Closure(f) =>
          var w := f(attrs, Done);
          out := out + w.text;
          ok := w.ok;
        case Tag(n) =>
          SelfClosingSplits(c, attrs);
          ok := Open(n, attrs, []);
          if ok {
            out := out + " />";
          }
        case Comp(n, pairs) =>
          SelfClosingSplits(c, attrs);
          ok := Open(n, attrs, pairs);
          if ok {
            out := out + " />";
          }
      }
    }
  }
}
