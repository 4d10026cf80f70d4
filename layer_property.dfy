/** The layer properties of the template reader (LayerProperty.java): the registry from an
    element's tag name to the property it defines, and the three parsers registered in it —
    the text style of a layer, and the wrap and bounds rectangles.

    An element is its tag name, its attributes and its child elements. `getAttribute` of a
    missing attribute gives the empty string, as in the DOM; the optional attributes of a
    style are read only when present. The style builder is the record of the values handed to
    its setters, and building, merging and the empty style belong to the style class, so
    they are parameters here, with no law assumed about them. */
module LayerProperties {
  import opened Results
  import JavaLang

  // ---------------------------------------------------------------------------
  // The registry
  // ---------------------------------------------------------------------------

  /** The three properties the class defines: `STYLE`, `WRAP` and `BOUNDS`. */
  datatype Property = StyleProperty | WrapProperty | BoundsProperty

  /** The static `PROPERTIES` map from tag name to property. */
  class Registry {
    var properties: map<string, Property>

    constructor ()
      ensures properties == map[]
    {
      properties := map[];
    }

    /** `PROPERTIES.get(tagName)`: the property registered under exactly that tag name, or
        `null`. */
    function Get(tagName: string): (r: Option<Property>)
      reads this
      ensures r.Some? <==> tagName in properties
      ensures r.Some? ==> r.value == properties[tagName]
    {
      if tagName in properties then Some(properties[tagName]) else None
    }

    /** `register`: puts the property under every tag name given, overwriting what was there,
        and returns the property itself. Every other tag name keeps its property. */
    method Register(property: Property, tagNames: seq<string>) returns (r: Property)
      modifies this
      ensures r == property
      ensures properties == old(properties) + map t | t in tagNames :: property
      ensures forall t :: Get(t) == if t in tagNames then Some(property) else old(Get(t))
    {
      var i := 0;
      while i < |tagNames|
        invariant 0 <= i <= |tagNames|
        invariant properties == old(properties) + map t | t in tagNames[..i] :: property
      {
        assert tagNames[..i + 1] == tagNames[..i] + [tagNames[i]];
        properties := properties[tagNames[i] := property];
        i := i + 1;
      }
      assert tagNames[..i] == tagNames;
      return property;
    }
  }

  /** The tag names the class registers, with their properties. */
  function StaticProperties(): map<string, Property> {
    map["Style" := StyleProperty, "Wrap" := WrapProperty, "wrap" := WrapProperty, "Bounds" := BoundsProperty]
  }

  /** The class's static initialisation: the three properties registered in turn, each
      static field holding what `register` returned. */
  method StaticInit() returns (registry: Registry, style: Property, wrap: Property, bounds: Property)
    ensures fresh(registry)
    ensures style == StyleProperty && wrap == WrapProperty && bounds == BoundsProperty
    ensures registry.properties == StaticProperties()
  {
    registry := new Registry();
    style := registry.Register(StyleProperty, ["Style"]);
    NamesMap(StyleProperty, ["Style"]);
    wrap := registry.Register(WrapProperty, ["Wrap", "wrap"]);
    NamesMap(WrapProperty, ["Wrap", "wrap"]);
    bounds := registry.Register(BoundsProperty, ["Bounds"]);
    NamesMap(BoundsProperty, ["Bounds"]);
  }

  /** The map `register` adds for a list of tag names, written out one name at a time. */
  function NameMap(property: Property, tagNames: seq<string>): map<string, Property> {
    if tagNames == [] then map[] else NameMap(property, tagNames[..|tagNames| - 1])[tagNames[|tagNames| - 1] := property]
  }

  lemma {:induction false} NamesMap(property: Property, tagNames: seq<string>)
    ensures (map t | t in tagNames :: property) == NameMap(property, tagNames)
  {
    if tagNames != [] {
      var init := tagNames[..|tagNames| - 1];
      NamesMap(property, init);
      assert tagNames == init + [tagNames[|tagNames| - 1]];
    }
  }

  /** After static initialisation exactly four tag names are known. Tag names are
      case-sensitive: `wrap` finds WRAP, but `bounds` and `style` find nothing. */
  lemma StaticLookups()
    ensures StaticProperties().Keys == {"Style", "Wrap", "wrap", "Bounds"}
    ensures StaticProperties()["Style"] == StyleProperty
    ensures StaticProperties()["Wrap"] == WrapProperty && StaticProperties()["wrap"] == WrapProperty
    ensures StaticProperties()["Bounds"] == BoundsProperty
    ensures "bounds" !in StaticProperties() && "style" !in StaticProperties()
  {
  }

  // ---------------------------------------------------------------------------
  // Elements
  // ---------------------------------------------------------------------------

  /** An element of the template: its tag name, its attributes and its child elements. */
  datatype Element = Element(tag: string, attributes: map<string, string>, children: seq<Element>)

  /** `getAttribute(name)`: the attribute's value, or the empty string when it is missing. */
  function Attribute(e: Element, name: string): string {
    if name in e.attributes then e.attributes[name] else ""
  }

  // ---------------------------------------------------------------------------
  // WRAP and BOUNDS
  // ---------------------------------------------------------------------------

  /** The rectangle of a wrap or bounds property. */
  datatype Rect = Rect(x: int, y: int, width: int, height: int)

  /** `WRAP.parse` and `BOUNDS.parse`: the four attributes `x`, `y`, `width` and `height`
      of the element itself, each read by `Integer.parseInt`; the first that is no `int`
      (a missing one included) throws a NumberFormatException. */
  function ParseRect(e: Element): Result<Rect> {
    match JavaLang.ParseInt(Attribute(e, "x"))
    case Failure(f) => Failure(f)
    case Success(x) =>
      match JavaLang.ParseInt(Attribute(e, "y"))
      case Failure(f) => Failure(f)
      case Success(y) =>
        match JavaLang.ParseInt(Attribute(e, "width"))
        case Failure(f) => Failure(f)
        case Success(width) =>
          match JavaLang.ParseInt(Attribute(e, "height"))
          case Failure(f) => Failure(f)
          case Success(height) => Success(Rect(x, y, width, height))
  }

  /** The rectangle parses exactly when all four attributes parse, its fields are their
      values, and every failure is a NumberFormatException. */
  lemma ParseRectFields(e: Element)
    ensures ParseRect(e).Success? <==>
      && JavaLang.ParseInt(Attribute(e, "x")).Success? && JavaLang.ParseInt(Attribute(e, "y")).Success?
      && JavaLang.ParseInt(Attribute(e, "width")).Success? && JavaLang.ParseInt(Attribute(e, "height")).Success?
    ensures ParseRect(e).Success? ==> ParseRect(e).value == Rect(
      JavaLang.ParseInt(Attribute(e, "x")).value, JavaLang.ParseInt(Attribute(e, "y")).value,
      JavaLang.ParseInt(Attribute(e, "width")).value, JavaLang.ParseInt(Attribute(e, "height")).value)
    ensures ParseRect(e).Failure? ==> ParseRect(e).fault == NumberFormat
  {
    ParseIntFault(Attribute(e, "x"));
    ParseIntFault(Attribute(e, "y"));
    ParseIntFault(Attribute(e, "width"));
    ParseIntFault(Attribute(e, "height"));
  }

  lemma ParseIntFault(s: string)
    ensures JavaLang.ParseInt(s).Failure? ==> JavaLang.ParseInt(s).fault == NumberFormat
  {
  }

  /** An element whose four attributes are written by `Integer.toString` parses back to the
      rectangle they were written from, whatever its children and parent. */
  lemma ParseRectRoundTrip(r: Rect, tag: string, others: map<string, string>, children: seq<Element>)
    requires JavaLang.InInt(r.x) && JavaLang.InInt(r.y) && JavaLang.InInt(r.width) && JavaLang.InInt(r.height)
    ensures ParseRect(Element(tag, others["x" := JavaLang.ToDecimal(r.x)]["y" := JavaLang.ToDecimal(r.y)]
      ["width" := JavaLang.ToDecimal(r.width)]["height" := JavaLang.ToDecimal(r.height)], children)) == Success(r)
  {
    var e := Element(tag, others["x" := JavaLang.ToDecimal(r.x)]["y" := JavaLang.ToDecimal(r.y)]
      ["width" := JavaLang.ToDecimal(r.width)]["height" := JavaLang.ToDecimal(r.height)], children);
    assert Attribute(e, "x") == JavaLang.ToDecimal(r.x) && Attribute(e, "y") == JavaLang.ToDecimal(r.y);
    assert Attribute(e, "width") == JavaLang.ToDecimal(r.width) && Attribute(e, "height") == JavaLang.ToDecimal(r.height);
    JavaLang.ParseIntRoundTrip(r.x);
    JavaLang.ParseIntRoundTrip(r.y);
    JavaLang.ParseIntRoundTrip(r.width);
    JavaLang.ParseIntRoundTrip(r.height);
  }

  /** A missing coordinate makes the rectangle fail. */
  lemma ParseRectMissing(e: Element, name: string)
    requires name in {"x", "y", "width", "height"} && name !in e.attributes
    ensures ParseRect(e) == Failure(NumberFormat)
  {
    ParseRectFields(e);
    assert Attribute(e, name) == "";
  }

  // ---------------------------------------------------------------------------
  // STYLE
  // ---------------------------------------------------------------------------

  datatype Shadow = Shadow(color: int, dX: int, dY: int)
  datatype Outline = Outline(color: int, weight: int)

  /** The values handed to the style builder's setters; a setter called again replaces the
      earlier value. The capitalization keeps the attribute text, whose parsing belongs to
      the style class. */
  datatype StyleDecl = StyleDecl(
    font: string,
    italics: Option<string>,
    capitalization: Option<string>,
    color: Option<int>,
    size: Option<int>,
    shadow: Option<Shadow>,
    outline: Option<Outline>)

  /** Where the element sits: the root of the template, or under a parent whose own style
      property is given (`None` when it has none, so `Style.EMPTY` stands in). */
  datatype Parent<S> = Root | Under(parentStyle: Option<S>)

  /** An optional attribute, as `XMLUtil.apply` passes it on: nothing when it is missing. */
  function Optional(e: Element, name: string): Option<string> {
    if name in e.attributes then Some(e.attributes[name]) else None
  }

  /** An optional numeric attribute read by `parse`: nothing when missing, its value when it
      parses, the parse failure otherwise. */
  function OptionalInt(e: Element, name: string, parse: string -> Result<int>): Result<Option<int>> {
    if name !in e.attributes then Success(None)
    else
      match parse(e.attributes[name])
      case Failure(f) => Failure(f)
      case Success(v) => Success(Some(v))
  }

  /** A `shadow` child: its `color`, `dX` and `dY`, each read by `Integer.decode`. */
  function ShadowOf(child: Element): Result<Shadow> {
    match JavaLang.Decode(Attribute(child, "color"))
    case Failure(f) => Failure(f)
    case Success(color) =>
      match JavaLang.Decode(Attribute(child, "dX"))
      case Failure(f) => Failure(f)
      case Success(dX) =>
        match JavaLang.Decode(Attribute(child, "dY"))
        case Failure(f) => Failure(f)
        case Success(dY) => Success(Shadow(color, dX, dY))
  }

  /** An `outline` child: its `color` and `weight`, each read by `Integer.decode`. */
  function OutlineOf(child: Element): Result<Outline> {
    match JavaLang.Decode(Attribute(child, "color"))
    case Failure(f) => Failure(f)
    case Success(color) =>
      match JavaLang.Decode(Attribute(child, "weight"))
      case Failure(f) => Failure(f)
      case Success(weight) => Success(Outline(color, weight))
  }

  /** The builder after one child: a `shadow` or an `outline` child sets that part, any
      other child leaves the builder as it is. */
  function ApplyChild(b: StyleDecl, child: Element): Result<StyleDecl> {
    if child.tag == "shadow" then
      match ShadowOf(child)
      case Failure(f) => Failure(f)
      case Success(s) => Success(b.(shadow := Some(s)))
    else if child.tag == "outline" then
      match OutlineOf(child)
      case Failure(f) => Failure(f)
      case Success(o) => Success(b.(outline := Some(o)))
    else Success(b)
  }

  /** The builder after the children, in order; the first child that throws ends it. */
  function ApplyChildren(b: StyleDecl, children: seq<Element>): Result<StyleDecl>
    decreases |children|
  {
    if children == [] then Success(b)
    else
      match ApplyChild(b, children[0])
      case Failure(f) => Failure(f)
      case Success(b') => ApplyChildren(b', children[1..])
  }

  /** The builder after the element's own attributes: the font (empty when missing), then
      the optional italic font, capitalization, color (`Integer.decode`) and size
      (`Integer.parseInt`). */
  function AttributesDecl(e: Element): Result<StyleDecl> {
    match OptionalInt(e, "color", JavaLang.Decode)
    case Failure(f) => Failure(f)
    case Success(color) =>
      match OptionalInt(e, "size", JavaLang.ParseInt)
      case Failure(f) => Failure(f)
      case Success(size) =>
        Success(StyleDecl(Attribute(e, "font"), Optional(e, "italicFont"), Optional(e, "capitalization"), color, size, None, None))
  }

  /** The builder once the element's attributes and children are read. */
  function Decl(e: Element): Result<StyleDecl> {
    match AttributesDecl(e)
    case Failure(f) => Failure(f)
    case Success(b) => ApplyChildren(b, e.children)
  }

  /** `STYLE.parse`: the built style of a root element; under a parent, the parent's style
      (or the empty style) merged with the built style. */
  function StyleOf<S>(e: Element, parent: Parent<S>, build: StyleDecl -> S, merge: (S, S) -> S, empty: S): Result<S> {
    match Decl(e)
    case Failure(f) => Failure(f)
    case Success(b) =>
      match parent
      case Root => Success(build(b))
      case Under(ps) => Success(merge(if ps.Some? then ps.value else empty, build(b)))
  }

  /** The source's `STYLE.parse`: the builder is filled attribute by attribute, then child by
      child, and the first value that fails to parse ends it. */
  method ParseStyle<S>(element: Element, parent: Parent<S>, build: StyleDecl -> S, merge: (S, S) -> S, empty: S)
    returns (r: Result<S>)
    ensures r == StyleOf(element, parent, build, merge, empty)
  {
    var attributes := ReadAttributes(element);
    if attributes.Failure? {
      return Failure(attributes.fault);
    }
    var builder := attributes.value;
    var children := element.children;
    var i := 0;
    assert children[i..] == children;
    while i < |children|
      invariant 0 <= i <= |children|
      invariant Decl(element) == ApplyChildren(builder, children[i..])
    {
      assert children[i..][1..] == children[i + 1..];
      var next := ReadChild(builder, children[i]);
      if next.Failure? {
        return Failure(next.fault);
      }
      builder := next.value;
      i := i + 1;
    }
    var built := build(builder);
    match parent {
      case Root => r := Success(built);
      case Under(ps) =>
        var parentStyle := if ps.Some? then ps.value else empty;
        r := Success(merge(parentStyle, built));
    }
  }

  /** The builder calls on the element's own attributes, in the order the source makes
      them; the first value that fails to parse ends it. */
  method ReadAttributes(element: Element) returns (r: Result<StyleDecl>)
    ensures r == AttributesDecl(element)
  {
    var builder := StyleDecl(Attribute(element, "font"), None, None, None, None, None, None);
    if "italicFont" in element.attributes {
      builder := builder.(italics := Some(element.attributes["italicFont"]));
    }
    if "capitalization" in element.attributes {
      builder := builder.(capitalization := Some(element.attributes["capitalization"]));
    }
    if "color" in element.attributes {
      var color := JavaLang.Decode(element.attributes["color"]);
      if color.Failure? {
        return Failure(color.fault);
      }
      builder := builder.(color := Some(color.value));
    }
    if "size" in element.attributes {
      var size := JavaLang.ParseInt(element.attributes["size"]);
      if size.Failure? {
        return Failure(size.fault);
      }
      builder := builder.(size := Some(size.value));
    }
    r := Success(builder);
  }

  /** The switch on one child's tag name inside `XMLUtil.iterate`: a `shadow` or an
      `outline` child has its attributes decoded in order, the first that fails ends the
      parse; any other child is passed over. */
  method ReadChild(builder: StyleDecl, child: Element) returns (r: Result<StyleDecl>)
    ensures r == ApplyChild(builder, child)
  {
    match child.tag {
      case "shadow" =>
        var color := JavaLang.Decode(Attribute(child, "color"));
        if color.Failure? {
          return Failure(color.fault);
        }
        var dX := JavaLang.Decode(Attribute(child, "dX"));
        if dX.Failure? {
          return Failure(dX.fault);
        }
        var dY := JavaLang.Decode(Attribute(child, "dY"));
        if dY.Failure? {
          return Failure(dY.fault);
        }
        r := Success(builder.(shadow := Some(Shadow(color.value, dX.value, dY.value))));
      case "outline" =>
        var color := JavaLang.Decode(Attribute(child, "color"));
        if color.Failure? {
          return Failure(color.fault);
        }
        var weight := JavaLang.Decode(Attribute(child, "weight"));
        if weight.Failure? {
          return Failure(weight.fault);
        }
        r := Success(builder.(outline := Some(Outline(color.value, weight.value))));
      case _ =>
        r := Success(builder);
    }
  }

  /** Every failure of `Integer.decode` is a NumberFormatException. */
  lemma DecodeFault(s: string)
    ensures JavaLang.Decode(s).Failure? ==> JavaLang.Decode(s).fault == NumberFormat
  {
  }

  /** A child that throws. */
  predicate ChildFails(child: Element) {
    || (child.tag == "shadow" && ShadowOf(child).Failure?)
    || (child.tag == "outline" && OutlineOf(child).Failure?)
  }

  /** The children fail exactly when one of them is a `shadow` or `outline` child with an
      attribute `Integer.decode` refuses; children with any other tag are never read. */
  lemma {:induction false} ChildrenFailIff(b: StyleDecl, children: seq<Element>)
    ensures ApplyChildren(b, children).Failure? <==> exists n :: 0 <= n < |children| && ChildFails(children[n])
    decreases |children|
  {
    if children != [] {
      var c := children[0];
      if !ChildFails(c) {
        var b' := ApplyChild(b, c).value;
        ChildrenFailIff(b', children[1..]);
        assert forall n :: 1 <= n < |children| ==> children[n] == children[1..][n - 1];
        if ApplyChildren(b, children).Failure? {
          var n :| 0 <= n < |children[1..]| && ChildFails(children[1..][n]);
          assert children[n + 1] == children[1..][n];
        }
      }
    }
  }

  /** Reading the children changes nothing but the shadow and the outline. */
  lemma {:induction false} ChildrenKeepAttributes(b: StyleDecl, children: seq<Element>)
    requires ApplyChildren(b, children).Success?
    ensures ApplyChildren(b, children).value.(shadow := b.shadow, outline := b.outline) == b
    decreases |children|
  {
    if children != [] {
      ChildrenKeepAttributes(ApplyChild(b, children[0]).value, children[1..]);
    }
  }

  /** The shadow comes from the last `shadow` child; with no such child it is left as it
      was. The same holds for the outline and the last `outline` child. */
  lemma {:induction false} LastShadowWins(b: StyleDecl, children: seq<Element>, n: nat)
    requires ApplyChildren(b, children).Success?
    requires n < |children| && children[n].tag == "shadow"
    requires forall j :: n < j < |children| ==> children[j].tag != "shadow"
    ensures ShadowOf(children[n]).Success?
    ensures ApplyChildren(b, children).value.shadow == Some(ShadowOf(children[n]).value)
    decreases |children|
  {
    var b' := ApplyChild(b, children[0]).value;
    if n == 0 {
      ShadowKept(b', children[1..]);
    } else {
      forall j | n - 1 < j < |children[1..]| ensures children[1..][j].tag != "shadow" {
        assert children[1..][j] == children[j + 1];
      }
      LastShadowWins(b', children[1..], n - 1);
    }
  }

  /** Children without a `shadow` child keep the shadow. */
  lemma {:induction false} ShadowKept(b: StyleDecl, children: seq<Element>)
    requires ApplyChildren(b, children).Success?
    requires forall j :: 0 <= j < |children| ==> children[j].tag != "shadow"
    ensures ApplyChildren(b, children).value.shadow == b.shadow
    decreases |children|
  {
    if children != [] {
      forall j | 0 <= j < |children[1..]| ensures children[1..][j].tag != "shadow" {
        assert children[1..][j] == children[j + 1];
      }
      ShadowKept(ApplyChild(b, children[0]).value, children[1..]);
    }
  }

  lemma {:induction false} LastOutlineWins(b: StyleDecl, children: seq<Element>, n: nat)
    requires ApplyChildren(b, children).Success?
    requires n < |children| && children[n].tag == "outline"
    requires forall j :: n < j < |children| ==> children[j].tag != "outline"
    ensures OutlineOf(children[n]).Success?
    ensures ApplyChildren(b, children).value.outline == Some(OutlineOf(children[n]).value)
    decreases |children|
  {
    var b' := ApplyChild(b, children[0]).value;
    if n == 0 {
      OutlineKept(b', children[1..]);
    } else {
      forall j | n - 1 < j < |children[1..]| ensures children[1..][j].tag != "outline" {
        assert children[1..][j] == children[j + 1];
      }
      LastOutlineWins(b', children[1..], n - 1);
    }
  }

  /** Children without an `outline` child keep the outline. */
  lemma {:induction false} OutlineKept(b: StyleDecl, children: seq<Element>)
    requires ApplyChildren(b, children).Success?
    requires forall j :: 0 <= j < |children| ==> children[j].tag != "outline"
    ensures ApplyChildren(b, children).value.outline == b.outline
    decreases |children|
  {
    if children != [] {
      forall j | 0 <= j < |children[1..]| ensures children[1..][j].tag != "outline" {
        assert children[1..][j] == children[j + 1];
      }
      OutlineKept(ApplyChild(b, children[0]).value, children[1..]);
    }
  }

  /** A child with any tag but `shadow` and `outline` can be dropped without any effect. */
  lemma {:induction false} OtherChildIgnored(b: StyleDecl, before: seq<Element>, other: Element, after: seq<Element>)
    requires other.tag != "shadow" && other.tag != "outline"
    ensures ApplyChildren(b, before + [other] + after) == ApplyChildren(b, before + after)
    decreases |before|
  {
    if before == [] {
      assert before + [other] + after == [other] + after;
      assert before + after == after;
      assert ([other] + after)[1..] == after;
    } else {
      assert (before + [other] + after)[1..] == before[1..] + [other] + after;
      assert (before + after)[1..] == before[1..] + after;
      match ApplyChild(b, before[0])
      case Failure(_) =>
      case Success(b') => OtherChildIgnored(b', before[1..], other, after);
    }
  }

  /** The attributes the builder gets: the font (empty when missing), the italic font and
      capitalization when present, and the decoded color and parsed size when present; the
      attributes fail exactly when a present color or size does not parse. */
  lemma AttributesRead(e: Element)
    ensures AttributesDecl(e).Success? <==>
      && ("color" in e.attributes ==> JavaLang.Decode(e.attributes["color"]).Success?)
      && ("size" in e.attributes ==> JavaLang.ParseInt(e.attributes["size"]).Success?)
    ensures AttributesDecl(e).Success? ==>
      var b := AttributesDecl(e).value;
      && b.font == Attribute(e, "font")
      && b.italics == Optional(e, "italicFont")
      && b.capitalization == Optional(e, "capitalization")
      && (b.color.Some? <==> "color" in e.attributes)
      && (b.color.Some? ==> b.color.value == JavaLang.Decode(e.attributes["color"]).value)
      && (b.size.Some? <==> "size" in e.attributes)
      && (b.size.Some? ==> b.size.value == JavaLang.ParseInt(e.attributes["size"]).value)
      && b.shadow.None? && b.outline.None?
  {
  }

  /** The style of a root element is its own built style; under a parent it is the
      parent's style, or the empty style when the parent has none, merged with the
      element's own built style. The parent plays no part in reading the element. */
  lemma StyleUnderParent<S>(e: Element, parent: Parent<S>, build: StyleDecl -> S, merge: (S, S) -> S, empty: S)
    ensures StyleOf(e, parent, build, merge, empty).Success? <==> Decl(e).Success?
    ensures Decl(e).Success? && parent.Root? ==> StyleOf(e, parent, build, merge, empty) == Success(build(Decl(e).value))
    ensures Decl(e).Success? && parent == Under(None) ==> StyleOf(e, parent, build, merge, empty) == Success(merge(empty, build(Decl(e).value)))
    ensures Decl(e).Success? && parent.Under? && parent.parentStyle.Some? ==>
      StyleOf(e, parent, build, merge, empty) == Success(merge(parent.parentStyle.value, build(Decl(e).value)))
  {
  }
}
