/**
 * The source-code loader of the ingestion layer: it lays out the outline of
 * a Python file as an optional module-docstring element, an optional imports
 * element, and one element per top-level function or class definition, in
 * the order of the syntax tree's top-level children. The parser and the four
 * extraction helpers are parameters whose behaviour the model does not fix.
 */
module Code {
  import opened Wrappers

  /** A syntax-tree node: its grammar kind and its children. */
  datatype Node = Node(kind: string, children: seq<Node>)

  /** One output record, a `dict` with the keys of the code-element schema. */
  datatype Element = Element(
    content: string,
    elementType: string,
    name: Option<string>,
    startLine: nat,
    endLine: nat,
    docstring: Option<string>,
    methods: seq<string>,
    source: string)

  /**
   * The four `_extract_*` helpers, each given a node and the file's text.
   * The first two may find nothing; the last two always build an element.
   */
  datatype Extractors = Extractors(
    moduleDocstring: (Node, string) -> Option<Element>,
    imports: (Node, string) -> Option<Element>,
    functionDefinition: (Node, string) -> Element,
    classDefinition: (Node, string) -> Element)

  const FunctionKind := "function_definition"
  const ClassKind := "class_definition"

  /** A top-level child that produces an element of its own. */
  predicate IsDefinition(n: Node) {
    n.kind == FunctionKind || n.kind == ClassKind
  }

  /** The element a top-level child contributes: one for a definition, none otherwise. */
  function Contribution(n: Node, text: string, ex: Extractors): seq<Element> {
    if n.kind == FunctionKind then [ex.functionDefinition(n, text)]
    else if n.kind == ClassKind then [ex.classDefinition(n, text)]
    else []
  }

  /** The elements the definition pass produces over `children`. */
  function Definitions(children: seq<Node>, text: string, ex: Extractors): seq<Element>
    decreases |children|
  {
    if |children| == 0 then []
    else Definitions(children[..|children| - 1], text, ex) + Contribution(children[|children| - 1], text, ex)
  }

  /** An optional element as a list of zero or one elements. */
  function OptionalPart(o: Option<Element>): seq<Element> {
    if o.Some? then [o.value] else []
  }

  /** What loading the file with text `text` and syntax tree root `root` returns. */
  function Outline(root: Node, text: string, ex: Extractors): seq<Element> {
    OptionalPart(ex.moduleDocstring(root, text))
    + OptionalPart(ex.imports(root, text))
    + Definitions(root.children, text, ex)
  }

  /**
   * `CodeLoader.load`, with the file's text and the parser's tree as
   * parameters, and the file's text passed to every helper.
   */
  method Load(text: string, root: Node, ex: Extractors) returns (elements: seq<Element>)
    ensures elements == Outline(root, text, ex)
  {
    elements := [];
    var moduleDocstring := ex.moduleDocstring(root, text);
    if moduleDocstring.Some? {
      elements := elements + [moduleDocstring.value];
    }
    var imports := ex.imports(root, text);
    if imports.Some? {
      elements := elements + [imports.value];
    }
    ghost var header := elements;
    var children := root.children;
    for i := 0 to |children|
      invariant elements == header + Definitions(children[..i], text, ex)
    {
      var node := children[i];
      ghost var before := elements;
      if node.kind == FunctionKind {
        elements := elements + [ex.functionDefinition(node, text)];
      } else if node.kind == ClassKind {
        elements := elements + [ex.classDefinition(node, text)];
      }
      assert elements == before + Contribution(node, text, ex);
      DefinitionsSnoc(children, i, text, ex);
      ElementsAssoc(header, Definitions(children[..i], text, ex), Contribution(node, text, ex));
    }
    assert children[..|children|] == children;
  }

  lemma ElementsAssoc(a: seq<Element>, b: seq<Element>, c: seq<Element>)
    ensures (a + b) + c == a + (b + c)
  {
  }

  // ---------------------------------------------------------------------
  // Reference definitions

  /** The number of top-level definitions among `children`. */
  function CountDefinitions(children: seq<Node>): nat
    decreases |children|
  {
    if |children| == 0 then 0
    else CountDefinitions(children[..|children| - 1]) + (if IsDefinition(children[|children| - 1]) then 1 else 0)
  }

  /** The element a helper builds for a definition node. */
  function Extract(n: Node, text: string, ex: Extractors): Element
    requires IsDefinition(n)
  {
    if n.kind == FunctionKind then ex.functionDefinition(n, text) else ex.classDefinition(n, text)
  }

  // ---------------------------------------------------------------------
  // The definition pass

  /** A child that is not a definition adds nothing to the definition pass. */
  lemma OtherKindsContributeNothing(children: seq<Node>, k: nat, text: string, ex: Extractors)
    requires k < |children| && !IsDefinition(children[k])
    ensures Definitions(children[..k + 1], text, ex) == Definitions(children[..k], text, ex)
  {
    assert children[..k + 1][..k] == children[..k];
  }

  /** There is exactly one element per definition child. */
  lemma {:induction false} DefinitionsLength(children: seq<Node>, text: string, ex: Extractors)
    ensures |Definitions(children, text, ex)| == CountDefinitions(children)
    decreases |children|
  {
    if |children| > 0 {
      DefinitionsLength(children[..|children| - 1], text, ex);
    }
  }

  /** The definition pass over one more child adds that child's contribution. */
  lemma DefinitionsSnoc(children: seq<Node>, i: nat, text: string, ex: Extractors)
    requires i < |children|
    ensures Definitions(children[..i + 1], text, ex) == Definitions(children[..i], text, ex) + Contribution(children[i], text, ex)
  {
    assert children[..i + 1][..i] == children[..i];
  }

  /** The definition pass over two runs of children is the two passes, concatenated. */
  lemma {:induction false} DefinitionsAppend(a: seq<Node>, b: seq<Node>, text: string, ex: Extractors)
    ensures Definitions(a + b, text, ex) == Definitions(a, text, ex) + Definitions(b, text, ex)
    decreases |b|
  {
    if |b| == 0 {
      assert a + b == a;
    } else {
      var init := b[..|b| - 1];
      var last := b[|b| - 1];
      var c := Contribution(last, text, ex);
      assert Definitions(a + b, text, ex) == Definitions(a + init, text, ex) + c by {
        assert (a + b)[..|a + b| - 1] == a + init;
        assert (a + b)[|a + b| - 1] == last;
      }
      DefinitionsAppend(a, init, text, ex);
      ElementsAssoc(Definitions(a, text, ex), Definitions(init, text, ex), c);
    }
  }

  /**
   * The `k`-th child, when it is a definition, gives the element the helper
   * builds for it, right after the elements of the children before it:
   * elements follow the children's order.
   */
  lemma DefinitionAt(children: seq<Node>, k: nat, text: string, ex: Extractors)
    requires k < |children| && IsDefinition(children[k])
    ensures CountDefinitions(children[..k]) < |Definitions(children, text, ex)|
    ensures Definitions(children, text, ex)[CountDefinitions(children[..k])] == Extract(children[k], text, ex)
  {
    var before := Definitions(children[..k], text, ex);
    var after := Definitions(children[k + 1..], text, ex);
    var e := Extract(children[k], text, ex);
    assert Definitions(children[..k + 1], text, ex) == before + [e] by {
      DefinitionsSnoc(children, k, text, ex);
    }
    assert Definitions(children, text, ex) == Definitions(children[..k + 1], text, ex) + after by {
      assert children == children[..k + 1] + children[k + 1..];
      DefinitionsAppend(children[..k + 1], children[k + 1..], text, ex);
    }
    DefinitionsLength(children[..k], text, ex);
    assert (before + [e] + after)[|before|] == e;
  }

  // ---------------------------------------------------------------------
  // The whole outline

  /** A module docstring, when one is found, is the first element. */
  lemma DocstringFirst(root: Node, text: string, ex: Extractors)
    requires ex.moduleDocstring(root, text).Some?
    ensures |Outline(root, text, ex)| > 0 && Outline(root, text, ex)[0] == ex.moduleDocstring(root, text).value
  {
  }

  /**
   * There is at most one imports element: it comes right after the module
   * docstring, if any, and only definitions follow it.
   */
  lemma ImportsBeforeDefinitions(root: Node, text: string, ex: Extractors)
    requires ex.imports(root, text).Some?
    ensures var d := |OptionalPart(ex.moduleDocstring(root, text))|;
      d < |Outline(root, text, ex)|
      && Outline(root, text, ex)[d] == ex.imports(root, text).value
      && Outline(root, text, ex)[d + 1..] == Definitions(root.children, text, ex)
  {
    var doc := OptionalPart(ex.moduleDocstring(root, text));
    var imp := OptionalPart(ex.imports(root, text));
    var defs := Definitions(root.children, text, ex);
    assert Outline(root, text, ex) == doc + imp + defs;
    assert (doc + imp + defs)[|doc| + 1..] == defs;
  }

  /**
   * However the helpers behave, the definitions come last, in child order,
   * after the optional docstring and imports elements.
   */
  lemma DefinitionsLast(root: Node, text: string, ex: Extractors)
    ensures var h := |OptionalPart(ex.moduleDocstring(root, text))| + |OptionalPart(ex.imports(root, text))|;
      h <= |Outline(root, text, ex)| && Outline(root, text, ex)[h..] == Definitions(root.children, text, ex)
  {
    var doc := OptionalPart(ex.moduleDocstring(root, text));
    var imp := OptionalPart(ex.imports(root, text));
    var defs := Definitions(root.children, text, ex);
    assert (doc + imp + defs)[|doc| + |imp|..] == defs;
  }

  /** The number of elements: docstring found, plus imports found, plus one per definition. */
  lemma OutlineLength(root: Node, text: string, ex: Extractors)
    ensures |Outline(root, text, ex)|
      == (if ex.moduleDocstring(root, text).Some? then 1 else 0)
      + (if ex.imports(root, text).Some? then 1 else 0)
      + CountDefinitions(root.children)
  {
    DefinitionsLength(root.children, text, ex);
  }

  /** A file whose tree has no children, and no docstring or imports, gives no elements. */
  lemma EmptyFile(root: Node, text: string, ex: Extractors)
    requires root.children == [] && ex.moduleDocstring(root, text).None? && ex.imports(root, text).None?
    ensures Outline(root, text, ex) == []
  {
  }

  /**
   * The order of the complete sample module: a docstring statement, two
   * import statements, a function and a class give the docstring element,
   * the imports element, the function element and the class element.
   */
  lemma SampleModuleOrder(root: Node, text: string, ex: Extractors, d: Element, i: Element)
    requires |root.children| == 5
    requires root.children[0].kind == "expression_statement"
    requires root.children[1].kind == "import_statement"
    requires root.children[2].kind == "import_from_statement"
    requires root.children[3].kind == FunctionKind
    requires root.children[4].kind == ClassKind
    requires ex.moduleDocstring(root, text) == Some(d) && ex.imports(root, text) == Some(i)
    ensures Outline(root, text, ex)
      == [d, i, ex.functionDefinition(root.children[3], text), ex.classDefinition(root.children[4], text)]
  {
    var cs := root.children;
    assert cs[..0] == [];
    DefinitionsSnoc(cs, 0, text, ex);
    DefinitionsSnoc(cs, 1, text, ex);
    DefinitionsSnoc(cs, 2, text, ex);
    DefinitionsSnoc(cs, 3, text, ex);
    DefinitionsSnoc(cs, 4, text, ex);
    assert cs[..5] == cs;
  }

  // ---------------------------------------------------------------------
  // The loader as written

  /** Why the loader as written stops. */
  datatype LoadError = NameError(name: string)

  /**
   * The names bound when the first helper is called: the method's locals
   * and the module's globals. Python's builtins have no `source_code` either.
   */
  const NamesInScope: set<string> := {
    "self", "f", "source", "tree", "elements",
    "logging", "Path", "Dict", "ts_python", "Language", "Parser", "logger", "PY_LANGUAGE", "CodeLoader"
  }

  /**
   * The method as written reads `source_code`, a name it never binds (the
   * text is read into `source`): looking it up fails before any element is
   * built, whatever the file holds. This assumes the four helpers exist;
   * without them, Python would first fail on the attribute
   * `self._extract_module_docstring`.
   */
  function LoadAsWritten(text: string, root: Node, ex: Extractors): (r: Result<seq<Element>, LoadError>)
    ensures r == Failure(NameError("source_code"))
  {
    if "source_code" in NamesInScope then Success(Outline(root, text, ex))
    else Failure(NameError("source_code"))
  }

  /**
   * On the empty file the loader as written fails, where the corrected one
   * returns the empty list that the source's own expectations call for.
   */
  lemma EmptyFileAsWritten(root: Node, ex: Extractors)
    requires root.children == [] && ex.moduleDocstring(root, "").None? && ex.imports(root, "").None?
    ensures LoadAsWritten("", root, ex).Failure?
    ensures Outline(root, "", ex) == []
  {
    EmptyFile(root, "", ex);
  }
}
