/**
 * `renderNode(Component, content, defaultProps)`: turns a loosely typed
 * "content" value into a rendered node, or into nothing.
 *
 * The JavaScript value is a closed tagged union here. Rendered elements are
 * plain values: the component they are made of, the `key` applied to them,
 * their props and their children. React's own element construction is not
 * modelled.
 */
module RenderNode {
  import opened Basics

  /** A prop value; only equality of prop values matters here. */
  datatype PropValue = Text(text: string) | Number(number: real) | Flag(flag: bool) | Reference(id: nat)

  type Props = map<string, PropValue>

  /** The component to render with, known only by its identity. */
  datatype Component = Component(name: string)

  /** A child placed inside a rendered component. */
  datatype Child = TextChild(text: string) | NumberChild(number: real)

  /**
   * A renderable node: either one made elsewhere (`Foreign`) or one this
   * function builds from `Component`.
   */
  datatype Node =
    | Foreign(id: nat)
    | Built(of: Component, key: Option<PropValue>, props: Props, children: seq<Child>)

  /**
   * The content value. `Null` covers both `null` and `undefined`; `Thunk`
   * carries what calling the function returns.
   */
  datatype Content =
    | Null
    | False
    | True
    | Element(node: Node)
    | Thunk(result: Option<Node>)
    | Str(s: string)
    | Num(x: real)
    | Obj(fields: Props)

  const KeyProp := "key"

  /** `defaultProps.key`, absent when the defaults have none. */
  function KeyOf(defaults: Props): Option<PropValue> {
    if KeyProp in defaults then Some(defaults[KeyProp]) else None
  }

  /** The defaults without `key`: `const { key, ...remainingDefaultProps } = defaultProps`. */
  function Remaining(defaults: Props): (r: Props)
    ensures r.Keys == defaults.Keys - {KeyProp}
    ensures forall p :: p in r ==> r[p] == defaults[p]
  {
    defaults - {KeyProp}
  }

  /** The content yields no node at all. */
  predicate RendersNothing(content: Content) {
    content.Null? || content.False? || content == Str("") || content == Thunk(None)
  }

  /**
   * The dispatch, in the order the original tests its cases: nullish or
   * `false`, a valid element, a function, `true`, a string, a number, and
   * finally any other object.
   */
  function Render(component: Component, content: Content, defaults: Props): (r: Option<Node>)
    ensures r.None? <==> RendersNothing(content)
    ensures content.Element? ==> r == Some(content.node)
    ensures content.Thunk? ==> r == content.result
    ensures !content.Element? && !content.Thunk? && r.Some? ==>
              && r.value.Built?
              && r.value.of == component
              && r.value.key == KeyOf(defaults)
    ensures content.True? || content.Str? || content.Num? ==>
              r.Some? ==> r.value.props == Remaining(defaults)
    ensures content.True? || content.Obj? ==> r.Some? && r.value.children == []
    ensures content.Str? && content.s != "" ==> r.Some? && r.value.children == [TextChild(content.s)]
    ensures content.Num? ==> r.Some? && r.value.children == [NumberChild(content.x)]
    ensures content.Obj? ==>
              && r.value.props.Keys == Remaining(defaults).Keys + content.fields.Keys
              && (forall p :: p in content.fields ==> r.value.props[p] == content.fields[p])
              && (forall p :: p in defaults && p != KeyProp && p !in content.fields ==>
                                r.value.props[p] == defaults[p])
  {
    var rest := Remaining(defaults);
    var key := KeyOf(defaults);
    if content.Null? || content.False? then
      None
    else if content.Element? then
      Some(content.node)
    else if content.Thunk? then
      content.result
    else if content.True? then
      Some(Built(component, key, rest, []))
    else if content.Str? then
      if |content.s| == 0 then None
      else Some(Built(component, key, rest, [TextChild(content.s)]))
    else if content.Num? then
      Some(Built(component, key, rest, [NumberChild(content.x)]))
    else
      Some(Built(component, key, rest + content.fields, []))
  }

  /** `key` from the defaults never reaches the spread props; only the content's own `key` can. */
  lemma KeyNeverSpread(component: Component, content: Content, defaults: Props)
    requires !content.Element? && !content.Thunk?
    requires content.Obj? ==> KeyProp !in content.fields
    ensures var r := Render(component, content, defaults);
            r.Some? ==> KeyProp !in r.value.props
  {
  }

  /** Elements and functions pass through whatever the component and defaults are. */
  lemma PassThroughIgnoresDefaults(c1: Component, c2: Component, content: Content, d1: Props, d2: Props)
    requires content.Element? || content.Thunk?
    ensures Render(c1, content, d1) == Render(c2, content, d2)
  {
  }

  /** An object's own props override the defaults: `{foo: 2}` over `{foo: 1, bar: 3}`. */
  lemma ObjectOverridesDefaults(component: Component)
    ensures Render(component, Obj(map["foo" := Number(2.0)]), map["foo" := Number(1.0), "bar" := Number(3.0)])
         == Some(Built(component, None, map["foo" := Number(2.0), "bar" := Number(3.0)], []))
  {
    var defaults := map["foo" := Number(1.0), "bar" := Number(3.0)];
    assert KeyProp != "foo" && KeyProp != "bar" by {
      assert KeyProp[0] == 'k';
    }
    assert Remaining(defaults) == defaults;
    var merged := defaults + map["foo" := Number(2.0)];
    assert "foo" != "bar" by {
      assert "foo"[0] == 'f';
    }
    assert merged.Keys == {"foo", "bar"};
    assert merged == map["foo" := Number(2.0), "bar" := Number(3.0)];
  }

  /** The number 0 is rendered, unlike the empty string. */
  lemma ZeroIsNotEmpty(component: Component, defaults: Props)
    ensures Render(component, Num(0.0), defaults).Some?
    ensures Render(component, Str(""), defaults).None?
  {
  }
}
