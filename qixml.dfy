/** The ElementTree convenience helpers of `qisys.qixml`: attribute
    validators and the `indent` pretty-printer. An element is modelled as a
    value: its tag, its attribute map, its optional `text` and `tail`, and
    its children in document order. */
module QiXml {
  import opened Wrappers
  import opened Text

  datatype Element = Element(
    tag: string,
    attrib: map<string, string>,
    text: Option<string>,
    tail: Option<string>,
    children: seq<Element>)

  /** The exceptions raised by the helpers (`raise_parse_error` and the
      plain `Exception`s of `XMLParser`), without their message text. */
  datatype XmlError =
    | BadBool(attr: string)                // parse_bool_attr: not true/false/0/1
    | MissingAttr(tag: string, attr: string) // parse_int_attr, parse_required_attr
    | NotAnInteger(attr: string, value: string)
    | NotABool(value: string)              // XMLParser._get_value_for_type
    | NotSet(node: string, attr: string)   // XMLParser.check_needed

  /** `tree.get(name)`. */
  function Get(e: Element, name: string): Option<string> {
    if name in e.attrib then Some(e.attrib[name]) else None
  }

  /** `parse_bool_attr(tree, name, default)`: "true" and "1" are true,
      "false" and "0" are false (case-sensitive), an absent attribute gives
      the default and every other value raises. */
  function ParseBoolAttr(e: Element, name: string, default: bool): (r: Result<bool, XmlError>)
    ensures name !in e.attrib ==> r == Ok(default)
    ensures name in e.attrib && e.attrib[name] in {"true", "1"} ==> r == Ok(true)
    ensures name in e.attrib && e.attrib[name] in {"false", "0"} ==> r == Ok(false)
    ensures r.Err? <==> name in e.attrib && e.attrib[name] !in {"true", "1", "false", "0"}
    ensures r.Err? ==> r.error == BadBool(name)
  {
    var res := Get(e, name);
    if res == Some("true") || res == Some("1") then Ok(true)
    else if res == Some("false") || res == Some("0") then Ok(false)
    else if res.Some? then Err(BadBool(name))
    else Ok(default)
  }

  /** `parse_int_attr(tree, name, default)`; `default == None` is Python's
      `default=None`. */
  function ParseIntAttr(e: Element, name: string, default: Option<int>): (r: Result<int, XmlError>)
    ensures (name !in e.attrib || e.attrib[name] == "") ==>
              r == (if default.Some? then Ok(default.value) else Err(MissingAttr(e.tag, name)))
    ensures name in e.attrib && e.attrib[name] != "" ==>
              r == (match ParseDecimal(e.attrib[name])
                    case Some(n) => Ok(n)
                    case None => Err(NotAnInteger(name, e.attrib[name])))
  {
    var res := Get(e, name);
    if res.None? || res.value == "" then
      if default.None? then Err(MissingAttr(e.tag, name)) else Ok(default.value)
    else
      match ParseDecimal(res.value)
      case None => Err(NotAnInteger(name, res.value))
      case Some(n) => Ok(n)
  }

  /** An attribute written as `str(n)` reads back as `n`, whatever the
      default. */
  lemma ParseIntAttrOfDecimal(e: Element, name: string, n: int, default: Option<int>)
    requires name in e.attrib && e.attrib[name] == IntToDecimal(n)
    ensures ParseIntAttr(e, name, default) == Ok(n)
  {
    ParseDecimalOfInt(n);
  }

  /** `parse_list_attr(tree, name)`: the whitespace-separated words of the
      attribute, none of them empty or holding whitespace; no words when the
      attribute is absent. */
  function ParseListAttr(e: Element, name: string): (r: seq<string>)
    ensures name !in e.attrib ==> r == []
    ensures forall i :: 0 <= i < |r| ==> IsToken(r[i])
  {
    Split(if name in e.attrib then e.attrib[name] else "")
  }

  /** Words written joined by single spaces read back unchanged. */
  lemma ParseListAttrOfJoin(e: Element, name: string, ws: seq<string>)
    requires forall i :: 0 <= i < |ws| ==> IsToken(ws[i])
    requires name in e.attrib && e.attrib[name] == Join(ws, " ")
    ensures ParseListAttr(e, name) == ws
  {
    SplitJoin(ws);
  }

  /** `parse_required_attr(tree, name)`: raises when the attribute is absent
      or empty, otherwise returns it unchanged. */
  function ParseRequiredAttr(e: Element, name: string): (r: Result<string, XmlError>)
    ensures r.Err? <==> name !in e.attrib || e.attrib[name] == ""
    ensures r.Ok? ==> r.value == e.attrib[name]
    ensures r.Err? ==> r.error == MissingAttr(e.tag, name)
  {
    var value := Get(e, name);
    if value.None? || value.value == "" then Err(MissingAttr(e.tag, name)) else Ok(value.value)
  }

  // ----- indent -----

  /** `not t or not t.strip()`: absent, empty or only whitespace. */
  predicate IsBlank(t: Option<string>) {
    t.None? || AllSpace(t.value)
  }

  /** `d * "  "`. */
  function Spaces(d: nat): (r: string)
    ensures |r| == 2 * d && AllSpace(r)
  {
    if d == 0 then "" else Spaces(d - 1) + "  "
  }

  /** `"\n" + d * "  "`: the whitespace that starts a line at depth `d`. */
  function Newline(d: nat): (r: string)
    ensures IsBlank(Some(r)) && |r| == 2 * d + 1
  {
    "\n" + Spaces(d)
  }

  /** Fills a blank tail with `s`, keeps any other. */
  function FillTail(e: Element, s: string): Element {
    if IsBlank(e.tail) then e.(tail := Some(s)) else e
  }

  /** `r` is `e` with at most its blank `text` and `tail` fields rewritten,
      at every depth: same tag, same attributes, same number of children,
      and every non-blank `text` and `tail` kept. */
  predicate KeepsContent(e: Element, r: Element)
    decreases e
  {
    && r.tag == e.tag
    && r.attrib == e.attrib
    && |r.children| == |e.children|
    && (!IsBlank(e.text) ==> r.text == e.text)
    && (!IsBlank(e.tail) ==> r.tail == e.tail)
    && forall k :: 0 <= k < |e.children| ==> KeepsContent(e.children[k], r.children[k])
  }

  lemma FillTailKeepsContent(e: Element, r: Element, s: string)
    requires KeepsContent(e, r)
    ensures KeepsContent(e, FillTail(r, s))
  {
    assert FillTail(r, s).children == r.children;
  }

  /** One turn of `indent`'s loop over the children: re-indent the child
      one level deeper, then fill its tail if blank. */
  function IndentChild(c: Element, level: nat, s: string): (r: Element)
    ensures KeepsContent(c, r)
    ensures IsBlank(c.tail) ==> r.tail == Some(s)
    decreases c, 1
  {
    var x := Indent(c, level);
    FillTailKeepsContent(c, x, s);
    FillTail(x, s)
  }

  /** `indent(elem, level)`, returning the re-indented element. */
  function Indent(e: Element, level: nat): (r: Element)
    ensures KeepsContent(e, r)
    ensures IsBlank(e.tail) ==> IsBlank(r.tail)
    // the root's tail, and the tail of any element with children, is never touched
    ensures level == 0 || |e.children| > 0 ==> r.tail == e.tail
    // a leaf below the root gets a blank tail that ends its own line
    ensures level > 0 && |e.children| == 0 && IsBlank(e.tail) ==> r.tail == Some(Newline(level))
    ensures |e.children| == 0 ==> r.text == e.text
    decreases e, 0
  {
    var i := Newline(level);
    if |e.children| > 0 then
      var text := if IsBlank(e.text) then Some(i + "  ") else e.text;
      var kids := seq(|e.children|, k requires 0 <= k < |e.children| =>
                        IndentChild(e.children[k], level + 1, i + "  "));
      var n := |kids|;
      FillTailKeepsContent(e.children[n - 1], kids[n - 1], i);
      var kids' := kids[..n - 1] + [FillTail(kids[n - 1], i)];
      assert forall k | 0 <= k < n :: KeepsContent(e.children[k], kids'[k]);
      e.(text := text, children := kids')
    else if level > 0 then
      FillTailKeepsContent(e, e, i);
      FillTail(e, i)
    else e
  }

  /** `indent` recurses: every child of the result is that child indented
      one level deeper, except that its tail may be filled. So the layout
      below holds at every depth of the tree. */
  lemma IndentNests(e: Element, level: nat)
    ensures |Indent(e, level).children| == |e.children|
    ensures forall k :: 0 <= k < |e.children| ==>
              Indent(e, level).children[k] == Indent(e.children[k], level + 1).(tail := Indent(e, level).children[k].tail)
  {
    var r, n := Indent(e, level), |e.children|;
    if n > 0 {
      var deeper := Newline(level) + "  ";
      forall k | 0 <= k < n
        ensures r.children[k] == Indent(e.children[k], level + 1).(tail := r.children[k].tail)
      {
        var c := IndentChild(e.children[k], level + 1, deeper);
        assert c == FillTail(Indent(e.children[k], level + 1), deeper);
        if k < n - 1 {
          assert r.children[k] == c;
        } else {
          assert r.children[k] == FillTail(c, Newline(level));
        }
      }
    }
  }

  /** The layout `indent` gives an element with children at depth `level`:
      a blank text opens a line one level deeper, a blank tail of every
      child but the last starts the next sibling's line, and a blank tail of
      the last child returns to this element's depth. */
  lemma IndentLayout(e: Element, level: nat)
    requires |e.children| > 0
    ensures IsBlank(e.text) ==> Indent(e, level).text == Some(Newline(level + 1))
    ensures forall k :: 0 <= k < |e.children| - 1 && IsBlank(e.children[k].tail) ==>
              Indent(e, level).children[k].tail == Some(Newline(level + 1))
    ensures IsBlank(e.children[|e.children| - 1].tail) ==>
              Indent(e, level).children[|e.children| - 1].tail == Some(Newline(level))
  {
    var r, n := Indent(e, level), |e.children|;
    var deeper := Newline(level) + "  ";
    assert deeper == Newline(level + 1);
    assert r.text == if IsBlank(e.text) then Some(deeper) else e.text;
    forall k | 0 <= k < n - 1 && IsBlank(e.children[k].tail)
      ensures r.children[k].tail == Some(Newline(level + 1))
    {
      assert r.children[k] == IndentChild(e.children[k], level + 1, deeper);
    }
    var last := IndentChild(e.children[n - 1], level + 1, deeper);
    assert r.children[n - 1] == FillTail(last, Newline(level));
  }
}
