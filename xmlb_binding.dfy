/** The contract every xmlb serialization binding meets when it moves one field
    of an object to and from JDOM nodes: how the sibling elements matched to a
    binding are reduced to one value, and how a serialization result is
    appended to the children of an element. */
module XmlbBinding {

  datatype Option<T> = None | Some(value: T)

  /** The two failures of this layer. */
  datatype Fault =
    | DuplicateData  // AssertionError: two or more nodes for a single-node binding
    | WrongNode      // IllegalArgumentException: a serialization result of the wrong shape

  datatype Result<T> = Ok(value: T) | Err(fault: Fault)

  /** Outcome of an operation that returns nothing but may fail. */
  datatype Outcome = Done | Failed(fault: Fault)

  // ---------------------------------------------------------------------
  // The JDOM tree: elements and their content
  // ---------------------------------------------------------------------

  /** A JDOM element: a name and an ordered list of children, which the
      serializer appends to in place. */
  class Element {
    var name: string
    var children: seq<Content>

    constructor (name: string)
      ensures this.name == name && children == []
    {
      this.name := name;
      children := [];
    }
  }

  /** A child of an element (JDOM Content): a nested element or a text-like node. */
  datatype Content =
    | ChildElement(element: Element)
    | Text(text: string)
    | CData(text: string)
    | Comment(text: string)

  /** What a binding's serialize returns, by the run-time class of the object:
      one Content, a List of Content, or anything else (including null). */
  datatype Serialized =
    | SingleContent(content: Content)
    | ContentList(items: seq<Content>)
    | NotContent

  // ---------------------------------------------------------------------
  // Bindings
  // ---------------------------------------------------------------------

  /** A MutableAccessor, known here only by the name of the slot it reads and
      writes. */
  datatype Accessor = Accessor(name: string)

  /** A binding, over a context type C, a node type N and a value type V.
      A single-node binding reconstructs its value from one node with
      `deserializeUnsafe`; a multi-node binding (MultiNodeBinding) also has its
      own `deserializeNodes` for the whole list of matched siblings.  The
      functions are the concrete binding's, which this layer does not see. */
  datatype Binding<!C, !N, V> =
    | SingleNode(accessor: Accessor,
                 deserializeUnsafe: (C, N) -> V,
                 isBoundTo: N -> bool)
    | MultiNode(accessor: Accessor,
                deserializeUnsafe: (C, N) -> V,
                isBoundTo: N -> bool,
                deserializeNodes: (C, seq<N>) -> V)

  /** The Binding constructor for a single-node binding that keeps the default
      isBoundTo: it owns the given accessor and is bound to no element. */
  function NewSingleNode<C(!new), N(!new), V>(accessor: Accessor, deserializeUnsafe: (C, N) -> V): (b: Binding<C, N, V>)
    ensures GetAccessor(b) == accessor
    ensures !b.MultiNode?
    ensures forall c, n :: b.deserializeUnsafe(c, n) == deserializeUnsafe(c, n)
    ensures forall n :: !IsBoundTo(b, n)
  {
    SingleNode(accessor, deserializeUnsafe, _ => false)
  }

  /** The Binding constructor for a multi-node binding that keeps the default
      isBoundTo. */
  function NewMultiNode<C(!new), N(!new), V>(accessor: Accessor, deserializeUnsafe: (C, N) -> V,
                                 deserializeNodes: (C, seq<N>) -> V): (b: Binding<C, N, V>)
    ensures GetAccessor(b) == accessor
    ensures b.MultiNode?
    ensures forall c, n :: b.deserializeUnsafe(c, n) == deserializeUnsafe(c, n)
    ensures forall c, ns :: b.deserializeNodes(c, ns) == deserializeNodes(c, ns)
    ensures forall n :: !IsBoundTo(b, n)
  {
    MultiNode(accessor, deserializeUnsafe, _ => false, deserializeNodes)
  }

  /** Binding.getAccessor. */
  function GetAccessor<C, N, V>(b: Binding<C, N, V>): Accessor {
    b.accessor
  }

  /** Binding.isBoundTo: whether the binding claims the given node. */
  function IsBoundTo<C, N, V>(b: Binding<C, N, V>, n: N): bool {
    b.isBoundTo(n)
  }

  /** Binding.init with the declared type and the serializer: the base binding
      resolves nothing, so every observable part of the binding is as before. */
  function Init<C(!new), N(!new), V, T, S>(b: Binding<C, N, V>, originalType: T, serializer: S): (r: Binding<C, N, V>)
    ensures GetAccessor(r) == GetAccessor(b)
    ensures r.MultiNode? == b.MultiNode?
    ensures forall c, n :: r.deserializeUnsafe(c, n) == b.deserializeUnsafe(c, n)
    ensures forall n :: IsBoundTo(r, n) == IsBoundTo(b, n)
    ensures forall c, ns :: DeserializeList(r, c, ns) == DeserializeList(b, c, ns)
  {
    b
  }

  /** Binding.deserializeList: reduces the sibling nodes matched to a binding
      to one value.  A multi-node binding gets the whole list, whatever its
      length, zero included; any other binding gets no value (null) and no
      fault for no node, its deserializeUnsafe of the node for one node, and
      the DuplicateData fault, with no value at all, for two or more. */
  function DeserializeList<C, N, V>(b: Binding<C, N, V>, context: C, nodes: seq<N>): (r: Result<Option<V>>)
    ensures b.MultiNode? ==> r == Ok(Some(b.deserializeNodes(context, nodes)))
    ensures !b.MultiNode? ==> (r == Ok(None) <==> |nodes| == 0)
    ensures !b.MultiNode? && |nodes| == 1 ==> r == Ok(Some(b.deserializeUnsafe(context, nodes[0])))
    ensures r.Err? <==> !b.MultiNode? && |nodes| >= 2
    ensures r.Err? ==> r == Err(DuplicateData)
  {
    if b.MultiNode? then Ok(Some(b.deserializeNodes(context, nodes)))
    else if |nodes| == 1 then Ok(Some(b.deserializeUnsafe(context, nodes[0])))
    else if |nodes| == 0 then Ok(None)
    else Err(DuplicateData)
  }

  // ---------------------------------------------------------------------
  // Binding.addContent
  // ---------------------------------------------------------------------

  /** The children an element has after a serialization result is appended
      to `children`: one more child for a Content, the list's items in order
      for a List, and the WrongNode fault for anything else. */
  function AppendFragment(children: seq<Content>, node: Serialized): (r: Result<seq<Content>>)
    ensures node.SingleContent? ==> r.Ok? && |r.value| == |children| + 1
    ensures node.ContentList? ==> r.Ok? && |r.value| == |children| + |node.items|
    ensures r.Ok? ==> |r.value| >= |children| && r.value[..|children|] == children
    ensures node.SingleContent? ==> r.value[|children|] == node.content
    ensures node.ContentList? ==> r.value[|children|..] == node.items
    ensures node.NotContent? <==> r == Err(WrongNode)
  {
    match node
    case SingleContent(content) => Ok(children + [content])
    case ContentList(items) => Ok(children + items)
    case NotContent => Err(WrongNode)
  }

  /** Appending a list is appending its items one at a time, in order. */
  lemma {:induction false} ListIsItemByItem(children: seq<Content>, items: seq<Content>)
    ensures AppendFragment(children, ContentList(items)) == Ok(AppendEach(children, items))
  {
    if items != [] {
      var init, last := items[..|items| - 1], items[|items| - 1];
      ListIsItemByItem(children, init);
      assert AppendEach(children, items) == AppendEach(children, init) + [last];
      assert items == init + [last];
      assert children + items == (children + init) + [last];
    } else {
      assert children + items == children;
    }
  }

  /** Appends the items one Content at a time. */
  function AppendEach(children: seq<Content>, items: seq<Content>): seq<Content>
  {
    if items == [] then children
    else
      var done := AppendEach(children, items[..|items| - 1]);
      AppendFragment(done, SingleContent(items[|items| - 1])).value
  }

  /** Binding.addContent: appends a serialization result to the children of
      `target`, or fails with WrongNode and leaves them as they were. */
  method AddContent(target: Element, node: Serialized) returns (outcome: Outcome)
    modifies target`children
    ensures outcome == Failed(WrongNode) <==> node.NotContent?
    ensures outcome.Done? <==> !node.NotContent?
    ensures AppendFragment(old(target.children), node).Ok? ==>
      target.children == AppendFragment(old(target.children), node).value
    ensures outcome.Failed? ==> target.children == old(target.children)
  {
    match node
    case SingleContent(content) =>
      target.children := target.children + [content];
      outcome := Done;
    case ContentList(items) =>
      target.children := target.children + items;
      outcome := Done;
    case NotContent =>
      outcome := Failed(WrongNode);
  }
}
