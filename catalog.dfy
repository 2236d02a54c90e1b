/**
 * `iter_components` (src/fhtoolkit/query.py): the AppStream catalogue read as a stream of
 * start and end events, turned into one record per `<component>` element.
 *
 * The XML tokenizer is not modelled: its output is given as a sequence of events, each
 * with the element's tag as the parser reports it (possibly `{namespace}name`), the `type`
 * attribute on starts and the element text on ends.
 */
module Catalog {
  import opened Wrappers
  import opened Text

  datatype Event =
    | Start(tag: string, typeAttr: Option<string>)
    | End(tag: string, text: Option<string>)

  /**
   * The record `iter_components` builds: the dictionary keys "type", "id" and "categories",
   * each possibly absent.
   */
  datatype Component = Component(kind: Option<string>, id: Option<string>, categories: Option<seq<string>>)

  /** The empty dictionary `{}`. */
  const NoComponent := Component(None, None, None)

  /** `tag.split("}")[-1]`: the tag without its namespace, i.e. what follows the last '}'. */
  function LocalName(tag: string): (name: string)
    ensures '}' !in name
  {
    if tag == [] || tag[|tag| - 1] == '}' then []
    else LocalName(tag[..|tag| - 1]) + [tag[|tag| - 1]]
  }

  /** The local name is the last piece of `tag.split("}")`. */
  lemma LocalNameIsLastPiece(tag: string)
    ensures var parts := Split(tag, '}'); LocalName(tag) == parts[|parts| - 1]
  {
    var parts := Split(tag, '}');
    var n := |parts|;
    if n == 1 {
      LocalNameFree(parts[0]);
    } else {
      JoinLast(parts, '}');
      LocalNameAfter(Join(parts[..n - 1], '}'), parts[n - 1]);
    }
  }

  lemma {:induction false} LocalNameFree(name: string)
    requires '}' !in name
    ensures LocalName(name) == name
  {
    if name != [] {
      LocalNameFree(name[..|name| - 1]);
      assert name == name[..|name| - 1] + [name[|name| - 1]];
    }
  }

  lemma {:induction false} LocalNameAfter(prefix: string, name: string)
    requires '}' !in name
    ensures LocalName(prefix + "}" + name) == name
  {
    var tag := prefix + "}" + name;
    if name != [] {
      assert tag[..|tag| - 1] == prefix + "}" + name[..|name| - 1];
      LocalNameAfter(prefix, name[..|name| - 1]);
      assert name == name[..|name| - 1] + [name[|name| - 1]];
    }
  }

  lemma {:induction false} JoinLast(parts: seq<string>, sep: char)
    requires |parts| >= 2
    ensures Join(parts, sep) == Join(parts[..|parts| - 1], sep) + [sep] + parts[|parts| - 1]
  {
    if |parts| > 2 {
      JoinLast(parts[1..], sep);
      assert parts[1..][..|parts| - 2] == parts[..|parts| - 1][1..];
    }
  }

  predicate IsComponent(e: Event) {
    LocalName(e.tag) == "component"
  }

  predicate Named(e: Event, name: string) {
    e.End? && LocalName(e.tag) == name
  }

  // ---------------------------------------------------------------------------------------
  // The records, defined by what the events say rather than by the loop.

  /** The index of the last event of a `component` element (start or end), or -1. */
  function LastComponentEvent(evs: seq<Event>): (k: int)
    ensures -1 <= k < |evs|
    ensures k >= 0 ==> IsComponent(evs[k])
  {
    if evs == [] then -1
    else if IsComponent(evs[|evs| - 1]) then |evs| - 1
    else LastComponentEvent(evs[..|evs| - 1])
  }

  /** Inside a component: the last component event was a start. */
  predicate Inside(evs: seq<Event>) {
    var k := LastComponentEvent(evs);
    k >= 0 && evs[k].Start?
  }

  /** The stripped text of an element, `(elem.text or "").strip()`. */
  function TextOf(e: Event): (t: string)
    requires e.End?
    ensures Stripped(t)
  {
    Strip(e.text.GetOr(""))
  }

  /** The `id` the body of a component sets: the text of its last closed `id` element. */
  function LastId(body: seq<Event>): (id: Option<string>)
    ensures id.Some? ==> Stripped(id.value)
  {
    if body == [] then None
    else if Named(body[|body| - 1], "id") then Some(TextOf(body[|body| - 1]))
    else LastId(body[..|body| - 1])
  }

  /** The non-blank texts of the `category` elements closed in a body, in document order. */
  function CategoryTexts(body: seq<Event>): (cats: seq<string>)
    ensures forall i :: 0 <= i < |cats| ==> cats[i] != [] && Stripped(cats[i])
    ensures |cats| <= |body|
  {
    if body == [] then []
    else
      var e := body[|body| - 1];
      CategoryTexts(body[..|body| - 1]) + (if Named(e, "category") && TextOf(e) != [] then [TextOf(e)] else [])
  }

  /** The categories list a body sets: the category texts seen when `categories` last closed. */
  function CategoriesAtClose(body: seq<Event>): (cats: Option<seq<string>>)
    ensures cats.Some? ==> forall i :: 0 <= i < |cats.value| ==> cats.value[i] != [] && Stripped(cats.value[i])
  {
    if body == [] then None
    else if Named(body[|body| - 1], "categories") then Some(CategoryTexts(body[..|body| - 1]))
    else CategoriesAtClose(body[..|body| - 1])
  }

  /** The record for a component opened with the given `type` attribute, after the given body. */
  function Build(typeAttr: Option<string>, body: seq<Event>): Component {
    Component(Some(typeAttr.GetOr("")), LastId(body), CategoriesAtClose(body))
  }

  /** A record as the loop yields it: it has a type, and its texts are stripped and non-blank. */
  predicate WellShaped(c: Component) {
    && c.kind.Some?
    && (c.id.Some? ==> Stripped(c.id.value))
    && (c.categories.Some? ==> forall i :: 0 <= i < |c.categories.value| ==>
          c.categories.value[i] != [] && Stripped(c.categories.value[i]))
  }

  /**
   * The records of an event stream (the root's start already consumed): one for each
   * `component` end that closes a component opened since the previous close, built from the
   * events between that opening and the close.
   */
  function Components(evs: seq<Event>): (cs: seq<Component>)
    ensures forall i :: 0 <= i < |cs| ==> WellShaped(cs[i])
  {
    if evs == [] then []
    else
      var p := evs[..|evs| - 1];
      var e := evs[|evs| - 1];
      if e.End? && IsComponent(e) && Inside(p) then
        var s := LastComponentEvent(p);
        Components(p) + [Build(p[s].typeAttr, p[s + 1..])]
      else Components(p)
  }

  // ---------------------------------------------------------------------------------------
  // The loop.

  /** The loop's variables after the events `p`, described by the functions above. */
  ghost predicate Machine(p: seq<Event>, inComponent: bool, comp: Component, cats: seq<string>, out: seq<Component>) {
    && out == Components(p)
    && inComponent == Inside(p)
    && (inComponent ==>
          var s := LastComponentEvent(p);
          comp == Build(p[s].typeAttr, p[s + 1..]) && cats == CategoryTexts(p[s + 1..]))
    && (!inComponent ==> comp == NoComponent && cats == [])
  }

  lemma SnocLast(evs: seq<Event>, e: Event)
    ensures (evs + [e])[..|evs|] == evs && (evs + [e])[|evs|] == e
  {
  }

  lemma ComponentsSnoc(p: seq<Event>, e: Event)
    ensures Components(p + [e]) ==
      if e.End? && IsComponent(e) && Inside(p) then
        var s := LastComponentEvent(p);
        Components(p) + [Build(p[s].typeAttr, p[s + 1..])]
      else Components(p)
  {
    SnocLast(p, e);
  }

  lemma LastComponentEventSnoc(p: seq<Event>, e: Event)
    ensures LastComponentEvent(p + [e]) == if IsComponent(e) then |p| else LastComponentEvent(p)
    ensures IsComponent(e) ==> (Inside(p + [e]) <==> e.Start?)
  {
    SnocLast(p, e);
  }

  lemma SnocBody(p: seq<Event>, e: Event, s: int)
    requires 0 <= s < |p|
    ensures (p + [e])[s] == p[s]
    ensures (p + [e])[s + 1..] == p[s + 1..] + [e]
  {
  }

  /** One more event that is not a component's: the machine's description carries over. */
  lemma MachineOther(p: seq<Event>, e: Event)
    requires !IsComponent(e)
    ensures LastComponentEvent(p + [e]) == LastComponentEvent(p)
    ensures Inside(p + [e]) == Inside(p)
    ensures Components(p + [e]) == Components(p)
  {
    LastComponentEventSnoc(p, e);
    ComponentsSnoc(p, e);
    var k := LastComponentEvent(p);
    if k >= 0 {
      assert (p + [e])[k] == p[k];
    }
  }

  lemma BodySnoc(b: seq<Event>, e: Event)
    ensures LastId(b + [e]) == if Named(e, "id") then Some(TextOf(e)) else LastId(b)
    ensures CategoryTexts(b + [e]) == CategoryTexts(b) + (if Named(e, "category") && TextOf(e) != [] then [TextOf(e)] else [])
    ensures CategoriesAtClose(b + [e]) == if Named(e, "categories") then Some(CategoryTexts(b)) else CategoriesAtClose(b)
  {
    SnocLast(b, e);
  }

  /** A component start: a fresh record holding only the type, no categories yet. */
  lemma MachineStart(p: seq<Event>, e: Event, inComponent: bool, comp: Component, cats: seq<string>, out: seq<Component>)
    requires Machine(p, inComponent, comp, cats, out)
    requires e.Start? && IsComponent(e)
    ensures Machine(p + [e], true, Component(Some(e.typeAttr.GetOr("")), None, None), [], out)
  {
    LastComponentEventSnoc(p, e);
    ComponentsSnoc(p, e);
    SnocLast(p, e);
    assert (p + [e])[|p| + 1..] == [];
  }

  /** A start of another element, or any end outside a component: nothing changes. */
  lemma MachineIgnore(p: seq<Event>, e: Event, inComponent: bool, comp: Component, cats: seq<string>, out: seq<Component>)
    requires Machine(p, inComponent, comp, cats, out)
    requires (e.Start? && !IsComponent(e)) || (e.End? && !inComponent)
    ensures Machine(p + [e], inComponent, comp, cats, out)
  {
    if IsComponent(e) {
      LastComponentEventSnoc(p, e);
      ComponentsSnoc(p, e);
    } else if inComponent {
      MachineOtherStart(p, e, comp, cats, out);
    } else {
      MachineOther(p, e);
    }
  }

  lemma MachineOtherStart(p: seq<Event>, e: Event, comp: Component, cats: seq<string>, out: seq<Component>)
    requires Machine(p, true, comp, cats, out)
    requires e.Start? && !IsComponent(e)
    ensures Machine(p + [e], true, comp, cats, out)
  {
    MachineOther(p, e);
    var s := LastComponentEvent(p);
    SnocBody(p, e, s);
    BuildIgnore(p[s].typeAttr, p[s + 1..], e);
  }

  /** A start inside a body changes neither the record nor the pending categories. */
  lemma BuildIgnore(t: Option<string>, b: seq<Event>, e: Event)
    requires e.Start?
    ensures Build(t, b + [e]) == Build(t, b)
    ensures CategoryTexts(b + [e]) == CategoryTexts(b)
  {
    BodySnoc(b, e);
  }

  /** A component end inside a component: the record is yielded and everything is reset. */
  lemma MachineClose(p: seq<Event>, e: Event, comp: Component, cats: seq<string>, out: seq<Component>)
    requires Machine(p, true, comp, cats, out)
    requires e.End? && IsComponent(e)
    ensures Machine(p + [e], false, NoComponent, [], out + [comp])
  {
    LastComponentEventSnoc(p, e);
    ComponentsSnoc(p, e);
  }

  /** What an end other than a component's does to the record and the pending categories. */
  function Update(comp: Component, cats: seq<string>, e: Event): (Component, seq<string>)
    requires e.End?
  {
    if Named(e, "id") then (comp.(id := Some(TextOf(e))), cats)
    else if Named(e, "category") then (comp, cats + (if TextOf(e) != [] then [TextOf(e)] else []))
    else if Named(e, "categories") then (comp.(categories := Some(cats)), cats)
    else (comp, cats)
  }

  /** An end inside a body updates the record and the pending categories as `Update` says. */
  lemma BuildStep(t: Option<string>, b: seq<Event>, e: Event)
    requires e.End?
    ensures Build(t, b + [e]) == Update(Build(t, b), CategoryTexts(b), e).0
    ensures CategoryTexts(b + [e]) == Update(Build(t, b), CategoryTexts(b), e).1
  {
    BodySnoc(b, e);
    if Named(e, "id") {
      assert !Named(e, "categories") && !Named(e, "category");
    } else if Named(e, "category") {
      assert !Named(e, "categories");
    }
  }

  /** Any other end inside a component: `id`, `category` and `categories` update the record. */
  lemma MachineField(p: seq<Event>, e: Event, comp: Component, cats: seq<string>, out: seq<Component>)
    requires Machine(p, true, comp, cats, out)
    requires e.End? && !IsComponent(e)
    ensures Machine(p + [e], true, Update(comp, cats, e).0, Update(comp, cats, e).1, out)
  {
    MachineOther(p, e);
    var s := LastComponentEvent(p);
    SnocBody(p, e, s);
    BuildStep(p[s].typeAttr, p[s + 1..], e);
  }

  /**
   * `iter_components(xml_bytes)`: the first event (the root's start) is consumed unseen; an
   * empty stream is a parse error. Then each component start resets the record to its type
   * and clears the categories, and inside a component the closes of `id`, `category`,
   * `categories` and `component` update the record, the last one yielding it.
   */
  method IterComponents(events: seq<Event>) returns (r: Result<seq<Component>, string>)
    ensures events == [] <==> r.Failure?
    ensures events != [] ==> r == Success(Components(events[1..]))
  {
    if events == [] {
      return Failure("no element found");
    }
    var rest := events[1..];
    var inComponent := false;
    var comp := NoComponent;
    var cats: seq<string> := [];
    var out: seq<Component> := [];
    for i := 0 to |rest|
      invariant Machine(rest[..i], inComponent, comp, cats, out)
    {
      var e := rest[i];
      var tag := LocalName(e.tag);
      ghost var p := rest[..i];
      assert rest[..i + 1] == p + [e];

      if e.Start? && tag == "component" {
        MachineStart(p, e, inComponent, comp, cats, out);
        inComponent := true;
        comp := Component(Some(e.typeAttr.GetOr("")), None, None);
        cats := [];
        continue;
      }

      if e.Start? || !inComponent {
        MachineIgnore(p, e, inComponent, comp, cats, out);
        continue;
      }

      if tag == "id" {
        MachineField(p, e, comp, cats, out);
        comp := comp.(id := Some(Strip(e.text.GetOr(""))));
      } else if tag == "category" {
        MachineField(p, e, comp, cats, out);
        var val := Strip(e.text.GetOr(""));
        if val != [] {
          cats := cats + [val];
        }
      } else if tag == "categories" {
        MachineField(p, e, comp, cats, out);
        comp := comp.(categories := Some(cats));
      } else if tag == "component" {
        MachineClose(p, e, comp, cats, out);
        out := out + [comp];
        comp := NoComponent;
        cats := [];
        inComponent := false;
      } else {
        MachineField(p, e, comp, cats, out);
      }
    }
    assert rest[..|rest|] == rest;
    return Success(out);
  }

  // ---------------------------------------------------------------------------------------
  // What the records are.

  function ComponentStarts(evs: seq<Event>): nat {
    if evs == [] then 0
    else ComponentStarts(evs[..|evs| - 1]) + (if evs[|evs| - 1].Start? && IsComponent(evs[|evs| - 1]) then 1 else 0)
  }

  /**
   * Every record pairs with a component start of its own: the records, plus the component
   * still open, never outnumber the component starts.
   */
  lemma {:induction false} ComponentsBound(evs: seq<Event>)
    ensures |Components(evs)| + (if Inside(evs) then 1 else 0) <= ComponentStarts(evs)
  {
    if evs != [] {
      var p := evs[..|evs| - 1];
      var e := evs[|evs| - 1];
      assert evs == p + [e];
      ComponentsBound(p);
      if !IsComponent(e) {
        MachineOther(p, e);
      }
    }
  }

  /** A component close inside a component yields exactly one record and leaves the component. */
  lemma CloseYields(p: seq<Event>, e: Event)
    requires e.End? && IsComponent(e) && Inside(p)
    ensures var s := LastComponentEvent(p);
      && Components(p + [e]) == Components(p) + [Build(p[s].typeAttr, p[s + 1..])]
      && !Inside(p + [e])
  {
    LastComponentEventSnoc(p, e);
    ComponentsSnoc(p, e);
  }

  /** A component close outside any component (an orphan close) yields nothing and changes nothing. */
  lemma OrphanCloseIgnored(p: seq<Event>, e: Event)
    requires e.End? && IsComponent(e) && !Inside(p)
    ensures Components(p + [e]) == Components(p)
    ensures !Inside(p + [e])
  {
    LastComponentEventSnoc(p, e);
    ComponentsSnoc(p, e);
  }

  /** A component start opens a fresh record holding only its type, whatever came before. */
  lemma StartResets(p: seq<Event>, e: Event)
    requires e.Start? && IsComponent(e)
    ensures Inside(p + [e]) && LastComponentEvent(p + [e]) == |p|
    ensures Build(e.typeAttr, (p + [e])[|p| + 1..]) == Component(Some(e.typeAttr.GetOr("")), None, None)
    ensures Components(p + [e]) == Components(p)
  {
    LastComponentEventSnoc(p, e);
    ComponentsSnoc(p, e);
    assert (p + [e])[|p| + 1..] == [];
  }
}
