/** `qisys.qixml.XMLParser`: walks the children of an element and hands
    each one to the handler registered for its tag, keeping the stack of
    enclosing tags in `backtrace`, and binds the element's attributes to the
    same-named fields of a target object.

    Python finds handlers (`_parse_<tag>`) and fields (`hasattr`) by
    reflection; here both are explicit tables: `handlers` maps a tag to what
    its handler does, and `target` maps each bindable field name to the
    field's current value. */
module XmlParsing {
  import opened Wrappers
  import opened Text
  import opened QiXml

  /** The current value of a bindable field of the target. Only its Python
      type matters for binding: `bool` or anything else. */
  datatype FieldValue = BoolValue(b: bool) | StrValue(s: string) | NoValue

  /** What a registered `_parse_<tag>` handler does with the child. */
  datatype Handler =
    | Descend  // calls `self.parse(child)`, as `_parse_easy` in the class documentation
    | Inspect  // only reads the child; it is logged with the backtrace it sees

  /** One call of an `Inspect` handler: the child's tag and the backtrace
      at that moment. */
  datatype Inspection = Inspection(tag: string, backtrace: seq<string>)

  /** Python 2 `str.lower()` on ASCII. */
  function Lower(s: string): (r: string)
    ensures |r| == |s|
  {
    if s == [] then []
    else [if 'A' <= s[0] <= 'Z' then (s[0] as int + 32) as char else s[0]] + Lower(s[1..])
  }

  /** `_get_value_for_type(type(current), value)`: a bool-typed field
      takes "true"/"1"/"false"/"0" in any letter case and raises on anything
      else; every other field takes the attribute's raw string. */
  function ValueForType(current: FieldValue, value: string): (r: Result<FieldValue, XmlError>)
    ensures current.BoolValue? ==> (r.Ok? <==> Lower(value) in {"true", "1", "false", "0"})
    ensures current.BoolValue? && r.Ok? ==> r.value == BoolValue(Lower(value) in {"true", "1"})
    ensures current.BoolValue? && r.Err? ==> r.error == NotABool(value)
    ensures !current.BoolValue? ==> r == Ok(StrValue(value))
  {
    if current.BoolValue? then
      var v := Lower(value);
      if v == "true" || v == "1" then Ok(BoolValue(true))
      else if v == "false" || v == "0" then Ok(BoolValue(false))
      else Err(NotABool(value))
    else Ok(StrValue(value))
  }

  /** "True", "TRUE" and "true" all bind a bool field to true. */
  lemma ValueForTypeIgnoresCase(b: bool, value: string)
    requires value in {"True", "TRUE", "true"}
    ensures ValueForType(BoolValue(b), value) == Ok(BoolValue(true))
  {
    assert Lower(value) == "true";
  }

  /** Every attribute that names a field of the target can be bound. */
  predicate AllBindable(target: map<string, FieldValue>, attrib: map<string, string>) {
    forall k :: k in target && k in attrib ==> ValueForType(target[k], attrib[k]).Ok?
  }

  /** The target after binding: a field named by an attribute holds the
      coerced attribute value, every other field is unchanged, and no field
      is created. */
  function Bound(target: map<string, FieldValue>, attrib: map<string, string>): (r: map<string, FieldValue>)
    requires AllBindable(target, attrib)
    ensures r.Keys == target.Keys
  {
    map k | k in target :: if k in attrib then ValueForType(target[k], attrib[k]).value else target[k]
  }

  /** A child whose registered handler parses it recursively. */
  predicate Descends(handlers: map<string, Handler>, child: Element) {
    child.tag in handlers && handlers[child.tag] == Descend
  }

  /** The calls of the `Inspect` handlers among `children`, in order, all
      seeing backtrace `bt`; children without a handler leave no trace. */
  function InspectedChildren(handlers: map<string, Handler>, children: seq<Element>, bt: seq<string>)
    : (r: seq<Inspection>)
    ensures |r| <= |children|
    decreases |children|
  {
    if children == [] then []
    else
      var init, c := children[..|children| - 1], children[|children| - 1];
      InspectedChildren(handlers, init, bt) + Inspected(handlers, c, bt)
  }

  /** The call an `Inspect` handler makes for one child, if any. */
  function Inspected(handlers: map<string, Handler>, c: Element, bt: seq<string>): (r: seq<Inspection>)
    ensures |r| <= 1
  {
    if c.tag in handlers && handlers[c.tag] == Inspect then [Inspection(c.tag, bt)] else []
  }

  lemma InspectedChildrenNext(handlers: map<string, Handler>, children: seq<Element>, i: nat, bt: seq<string>)
    requires i < |children|
    ensures InspectedChildren(handlers, children[..i + 1], bt) ==
            InspectedChildren(handlers, children[..i], bt) + Inspected(handlers, children[i], bt)
  {
    assert children[..i + 1][..i] == children[..i];
  }

  /** Exactly the children with an `Inspect` handler are inspected, each
      with backtrace `bt`. */
  lemma {:induction false} InspectedChildrenMembers(handlers: map<string, Handler>, children: seq<Element>, bt: seq<string>)
    ensures forall x :: x in InspectedChildren(handlers, children, bt) <==>
              x.backtrace == bt && exists c :: c in children && c.tag == x.tag && c.tag in handlers && handlers[c.tag] == Inspect
    decreases |children|
  {
    if children != [] {
      var init, c := children[..|children| - 1], children[|children| - 1];
      InspectedChildrenMembers(handlers, init, bt);
      assert children == init + [c];
      forall x ensures x in InspectedChildren(handlers, children, bt) <==>
              x.backtrace == bt && exists c :: c in children && c.tag == x.tag && c.tag in handlers && handlers[c.tag] == Inspect
      {
        if x.backtrace == bt && (exists c' :: c' in children && c'.tag == x.tag && c'.tag in handlers && handlers[c'.tag] == Inspect) {
          var c' :| c' in children && c'.tag == x.tag && c'.tag in handlers && handlers[c'.tag] == Inspect;
          if c' != c {
            assert c' in init;
          }
        }
      }
    }
  }

  /** `ins` extends `before`, and every inspection added saw `bt` at the
      bottom of its backtrace. */
  ghost predicate Grows(before: seq<Inspection>, ins: seq<Inspection>, bt: seq<string>) {
    before <= ins && forall j :: |before| <= j < |ins| ==> bt <= ins[j].backtrace
  }

  lemma GrowsTrans(a: seq<Inspection>, b: seq<Inspection>, c: seq<Inspection>, bt: seq<string>)
    requires Grows(a, b, bt) && Grows(b, c, bt)
    ensures Grows(a, c, bt)
  {
    forall j | |a| <= j < |c| ensures bt <= c[j].backtrace {
      if j < |b| {
        assert c[j] == b[j];
      }
    }
  }

  class XMLParser {
    var target: map<string, FieldValue>
    var backtrace: seq<string>
    /** What the `Inspect` handlers saw, in call order. */
    var inspections: seq<Inspection>
    const handlers: map<string, Handler>

    constructor (target: map<string, FieldValue>, handlers: map<string, Handler>)
      ensures this.target == target && this.handlers == handlers
      ensures backtrace == [] && inspections == []
    {
      this.target := target;
      this.handlers := handlers;
      backtrace := [];
      inspections := [];
    }

    /** `_parse_attributes` on the element being parsed: binds every
        attribute the target has a field for, in the attribute map's
        (unspecified) order, and raises on the first bool field whose value
        is not a boolean. */
    method ParseAttributes(attrib: map<string, string>) returns (r: Outcome<XmlError>)
      modifies this`target
      ensures target.Keys == old(target).Keys
      ensures forall k :: k in target && k !in attrib ==> target[k] == old(target)[k]
      ensures r.Pass? <==> AllBindable(old(target), attrib)
      ensures r.Pass? ==> target == Bound(old(target), attrib)
    {
      var todo := attrib.Keys;
      while todo != {}
        invariant todo <= attrib.Keys
        invariant target.Keys == old(target).Keys
        invariant forall k :: k in attrib && k !in todo && k in target ==>
                    ValueForType(old(target)[k], attrib[k]).Ok?
        invariant forall k :: k in target ==>
                    target[k] == if k in attrib && k !in todo
                                 then ValueForType(old(target)[k], attrib[k]).value
                                 else old(target)[k]
        decreases todo
      {
        var a :| a in todo;
        if a in target {
          var v := ValueForType(target[a], attrib[a]);
          if v.Err? {
            return Fail(v.error);
          }
          target := target[a := v.value];
        }
        todo := todo - {a};
      }
      r := Pass;
    }

    /** `parse(root)`: binds the root's attributes, then, with the root's
        tag pushed on `backtrace`, dispatches every child to its handler;
        children without one go to `_parse_unknown_element`, which ignores
        them. An exception leaves `backtrace` as it was when raised. */
    method Parse(root: Element) returns (r: Outcome<XmlError>)
      modifies this
      ensures target.Keys == old(target).Keys
      ensures r.Pass? ==> backtrace == old(backtrace)
      ensures old(backtrace) <= backtrace
      ensures old(inspections) <= inspections
      // every handler that ran below this root saw the root's tag on top of the old backtrace
      ensures forall j :: |old(inspections)| <= j < |inspections| ==>
                old(backtrace) + [root.tag] <= inspections[j].backtrace
      // the root's attributes are bound first: a value that cannot be bound is an error
      ensures r.Pass? ==> AllBindable(old(target), root.attrib)
      ensures !AllBindable(old(target), root.attrib) ==>
                r.Fail? && backtrace == old(backtrace) && inspections == old(inspections)
      // when no child descends, the inspecting handlers run in child order and the others are ignored
      ensures r.Pass? && (forall k :: 0 <= k < |root.children| ==> !Descends(handlers, root.children[k])) ==>
                inspections == old(inspections) + InspectedChildren(handlers, root.children, old(backtrace) + [root.tag])
      // and then the target holds exactly the root's bound attributes
      ensures r.Pass? && (forall k :: 0 <= k < |root.children| ==> !Descends(handlers, root.children[k])) ==>
                target == Bound(old(target), root.attrib)
      decreases root, 1
    {
      // _parse_prologue: nothing by default
      r := ParseAttributes(root.attrib);
      if r.Fail? {
        return;
      }
      // _post_parse_attributes: nothing by default
      backtrace := backtrace + [root.tag];
      r := ParseChildren(root);
      if r.Fail? {
        return;
      }
      backtrace := backtrace[..|backtrace| - 1];
      // _parse_epilogue: nothing by default
    }

    /** The loop of `parse` over the children of `root`, with the root's
        tag already on `backtrace`. */
    method ParseChildren(root: Element) returns (r: Outcome<XmlError>)
      modifies this
      ensures target.Keys == old(target).Keys
      ensures r.Pass? ==> backtrace == old(backtrace)
      ensures old(backtrace) <= backtrace
      ensures Grows(old(inspections), inspections, old(backtrace))
      ensures r.Pass? && (forall k :: 0 <= k < |root.children| ==> !Descends(handlers, root.children[k])) ==>
                inspections == old(inspections) + InspectedChildren(handlers, root.children, old(backtrace))
      ensures r.Pass? && (forall k :: 0 <= k < |root.children| ==> !Descends(handlers, root.children[k])) ==>
                target == old(target)
      decreases root, 0
    {
      var i := 0;
      ghost var shallow := forall k :: 0 <= k < |root.children| ==> !Descends(handlers, root.children[k]);
      while i < |root.children|
        invariant 0 <= i <= |root.children|
        invariant backtrace == old(backtrace)
        invariant target.Keys == old(target).Keys
        invariant Grows(old(inspections), inspections, old(backtrace))
        invariant shallow ==>
                    inspections == old(inspections) + InspectedChildren(handlers, root.children[..i], old(backtrace))
        invariant shallow ==> target == old(target)
      {
        r := ParseTurn(root, i, old(inspections), shallow);
        if r.Fail? {
          return;
        }
        i := i + 1;
      }
      assert root.children[..i] == root.children;
      r := Pass;
    }

    /** One turn of the loop of `ParseChildren`, on child `i`. */
    method ParseTurn(root: Element, i: nat, ghost start: seq<Inspection>, ghost shallow: bool)
      returns (r: Outcome<XmlError>)
      requires i < |root.children|
      requires Grows(start, inspections, backtrace)
      requires shallow ==> forall k :: 0 <= k < |root.children| ==> !Descends(handlers, root.children[k])
      requires shallow ==> inspections == start + InspectedChildren(handlers, root.children[..i], backtrace)
      modifies this
      ensures target.Keys == old(target).Keys
      ensures r.Pass? ==> backtrace == old(backtrace)
      ensures old(backtrace) <= backtrace
      ensures Grows(start, inspections, old(backtrace))
      ensures r.Pass? && shallow ==>
                inspections == start + InspectedChildren(handlers, root.children[..i + 1], old(backtrace))
      ensures shallow ==> target == old(target)
      decreases root, 0, i
    {
      InspectedChildrenNext(handlers, root.children, i, backtrace);
      r := ParseChild(root.children[i]);
      GrowsTrans(start, old(inspections), inspections, old(backtrace));
    }

    /** One turn of `parse`'s loop: the child goes to the handler of its
        tag, or to `_parse_unknown_element`, which ignores it. */
    method ParseChild(child: Element) returns (r: Outcome<XmlError>)
      modifies this
      ensures target.Keys == old(target).Keys
      ensures r.Pass? ==> backtrace == old(backtrace)
      ensures old(backtrace) <= backtrace
      ensures Grows(old(inspections), inspections, old(backtrace))
      ensures !Descends(handlers, child) ==>
                r.Pass? && backtrace == old(backtrace) && target == old(target) &&
                inspections == old(inspections) + Inspected(handlers, child, old(backtrace))
      decreases child, 2
    {
      r := Pass;
      if child.tag in handlers {
        match handlers[child.tag]
        case Descend =>
          r := Parse(child);
        case Inspect =>
          inspections := inspections + [Inspection(child.tag, backtrace)];
      }
    }

    /** `check_needed(attribute_name, node_name, value)`: raises exactly
        when the given value, or failing that the target's field, is
        `None`. */
    function CheckNeeded(attr: string, node: string, value: FieldValue): (r: Outcome<XmlError>)
      reads this
      ensures r.Fail? <==> value.NoValue? && (attr !in target || target[attr].NoValue?)
      ensures r.Fail? ==> r.error == NotSet(node, attr)
    {
      var v := if value.NoValue? && attr in target then target[attr] else value;
      if v.NoValue? then Fail(NotSet(node, attr)) else Pass
    }
  }
}
