/**
 What the contents of an envelope hold, by position in the tree: one entry for each leaf that is not
 below anything ignored, with its place among its namesakes and its text, folios under their names.
 */
module EnvelopeMeaning {
  import opened Wrappers
  import opened EnvelopeTree
  import opened EnvelopeWalk
  import Text

  // ---------------------------------------------------------------- the leaves by address

  /** What changes in every emission and is no part of the case. */
  lemma IgnoredExactly(node: Node)
    ensures Skipped(node) <==>
              || node.name == ""
              || node.name == "Signature" || node.name == "TED" || node.name == "TmstFirma" || node.name == "TmstFirmaEnv"
              || node.name == "FchEmis" || node.name == "FchRef" || node.name == "FchDoc" || node.name == "FchVenc"
              || node.name == "PeriodoTributario"
  {
  }

  /** The positions of the children to follow from a node down to a leaf, none of them ignored. */
  predicate LeadsToLeaf(node: Node, address: seq<nat>)
    decreases |address|
  {
    && address != [] && address[0] < |node.children|
    && !Skipped(node.children[address[0]])
    && if |address| == 1 then node.children[address[0]].children == [] else LeadsToLeaf(node.children[address[0]], address[1..])
  }

  /** The leaf and the node it hangs from. */
  function LeafAt(node: Node, address: seq<nat>): (r: (Node, Node))
    requires LeadsToLeaf(node, address)
    decreases |address|
  {
    if |address| == 1 then (node, node.children[address[0]]) else LeafAt(node.children[address[0]], address[1..])
  }

  /** How many of the first `n` nodes have the name and are not ignored. */
  function Namesakes(nodes: seq<Node>, n: nat, name: string): set<nat>
    requires n <= |nodes|
  {
    set j: nat | j < n && nodes[j].name == name && !Skipped(nodes[j])
  }

  /** The names on the way, each with its place among its namesakes. */
  function PathTo(node: Node, address: seq<nat>): string
    requires LeadsToLeaf(node, address)
    decreases |address|
  {
    var i := address[0];
    var child := node.children[i];
    "/" + child.name + "[" + Text.Decimal(|Namesakes(node.children, i + 1, child.name)|) + "]"
    + if |address| == 1 then "" else PathTo(child, address[1..])
  }

  lemma {:induction false} CountNamedExactly(nodes: seq<Node>, n: nat, name: string)
    requires n <= |nodes|
    ensures CountNamed(nodes[..n], name) == |Namesakes(nodes, n, name)|
  {
    if n > 0 {
      CountNamedExactly(nodes, n - 1, name);
      assert nodes[..n][..n - 1] == nodes[..n - 1];
      var before, all := Namesakes(nodes, n - 1, name), Namesakes(nodes, n, name);
      if nodes[n - 1].name == name && !Skipped(nodes[n - 1]) {
        assert all == before + {n - 1};
      } else {
        assert all == before;
      }
    } else {
      assert Namesakes(nodes, 0, name) == {};
    }
  }

  lemma PathOfExactly(node: Node, i: nat, path: string)
    requires i < |node.children|
    ensures var name := node.children[i].name;
            PathOf(node, i, path) == path + ("/" + name + "[" + Text.Decimal(|Namesakes(node.children, i + 1, name)|) + "]")
  {
    CountNamedExactly(node.children, i + 1, node.children[i].name);
  }

  /** The entry of the leaf at an address. */
  ghost predicate IsEntryAt(node: Node, path: string, labels: Labels, address: seq<nat>, e: Entry) {
    && LeadsToLeaf(node, address)
    && e.path == path + PathTo(node, address)
    && e.text == LeafText(LeafAt(node, address).0, LeafAt(node, address).1, labels)
  }

  lemma LastStep(node: Node, i: nat, path: string, labels: Labels, e: Entry)
    requires i < |node.children|
    ensures var child := node.children[i];
            IsEntryAt(node, path, labels, [i], e) <==>
            !Skipped(child) && child.children == [] && e == Entry(PathOf(node, i, path), LeafText(node, child, labels))
  {
    PathOfExactly(node, i, path);
    hide LeafText, Namesakes, PathOf;
    var step := "/" + node.children[i].name + "[" + Text.Decimal(|Namesakes(node.children, i + 1, node.children[i].name)|) + "]";
    assert LeadsToLeaf(node, [i]) ==> PathTo(node, [i]) == step + "" == step;
  }

  lemma AddressSteps(node: Node, address: seq<nat>)
    requires |address| > 1 && address[0] < |node.children|
    ensures var child := node.children[address[0]];
            && (LeadsToLeaf(node, address) <==> !Skipped(child) && LeadsToLeaf(child, address[1..]))
            && (LeadsToLeaf(node, address) ==> LeafAt(node, address) == LeafAt(child, address[1..]))
  {
  }

  lemma Regroup(a: string, b: string, c: string)
    ensures a + (b + c) == (a + b) + c
  {
  }

  lemma FirstStep(node: Node, address: seq<nat>, path: string, labels: Labels, e: Entry)
    requires |address| > 1 && address[0] < |node.children|
    ensures var i := address[0];
            IsEntryAt(node, path, labels, address, e) <==>
            !Skipped(node.children[i]) && IsEntryAt(node.children[i], PathOf(node, i, path), labels, address[1..], e)
  {
    var i := address[0];
    var child := node.children[i];
    PathOfExactly(node, i, path);
    AddressSteps(node, address);
    var step := "/" + child.name + "[" + Text.Decimal(|Namesakes(node.children, i + 1, child.name)|) + "]";
    if LeadsToLeaf(node, address) {
      assert PathTo(node, address) == step + PathTo(child, address[1..]);
      Regroup(path, step, PathTo(child, address[1..]));
    }
    hide LeafText, Namesakes, PathOf, PathTo, LeadsToLeaf, LeafAt, Skipped;
  }

  /** The entries of child `i`: those of the addresses that begin with it. */
  lemma {:induction false} ChildEntriesExactly(node: Node, i: nat, path: string, labels: Labels, e: Entry)
    requires i < |node.children|
    ensures e in FlattenChild(node, i, path, labels) <==>
            exists address :: address != [] && address[0] == i && IsEntryAt(node, path, labels, address, e)
    decreases node, 0
  {
    var child := node.children[i];
    if e in FlattenChild(node, i, path, labels) {
      if child.children == [] {
        LastStep(node, i, path, labels, e);
        assert [i][0] == i;
      } else {
        EntriesExactly(child, PathOf(node, i, path), labels, e);
        var below :| IsEntryAt(child, PathOf(node, i, path), labels, below, e);
        FirstStep(node, [i] + below, path, labels, e);
        assert ([i] + below)[1..] == below && ([i] + below)[0] == i;
      }
    }
    if address :| address != [] && address[0] == i && IsEntryAt(node, path, labels, address, e) {
      if |address| == 1 {
        assert address == [i];
        LastStep(node, i, path, labels, e);
      } else {
        FirstStep(node, address, path, labels, e);
        EntriesExactly(child, PathOf(node, i, path), labels, e);
        assert LeadsToLeaf(child, address[1..]);
      }
    }
  }

  ghost predicate InChild(node: Node, i: nat, path: string, labels: Labels, e: Entry) {
    i < |node.children| && e in FlattenChild(node, i, path, labels)
  }

  lemma {:induction false} InFirstChildren(node: Node, n: nat, path: string, labels: Labels, e: Entry)
    requires n <= |node.children|
    ensures e in FlattenFirst(node, n, path, labels) <==> exists i: nat :: i < n && InChild(node, i, path, labels, e)
  {
    if n > 0 {
      InFirstChildren(node, n - 1, path, labels, e);
      assert e in FlattenFirst(node, n, path, labels) <==>
             e in FlattenFirst(node, n - 1, path, labels) || InChild(node, n - 1, path, labels, e);
    }
  }

  /** The leaves below a node are those at its addresses, each with its path and its text, and no other. */
  lemma {:induction false} EntriesExactly(node: Node, path: string, labels: Labels, e: Entry)
    ensures e in Flatten(node, path, labels) <==> exists address :: IsEntryAt(node, path, labels, address, e)
    decreases node, 1
  {
    InFirstChildren(node, |node.children|, path, labels, e);
    forall i: nat | i < |node.children|
      ensures InChild(node, i, path, labels, e) <==>
              exists address :: address != [] && address[0] == i && IsEntryAt(node, path, labels, address, e)
    {
      ChildEntriesExactly(node, i, path, labels, e);
    }
    hide FlattenChild, LeafText, PathTo;
    if address :| IsEntryAt(node, path, labels, address, e) {
      assert InChild(node, address[0], path, labels, e);
    }
  }

  // ---------------------------------------------------------------- their texts

  /** The text of the first visited node of a name. */
  function FirstNamed(visits: seq<Visit>, name: string): Option<string> {
    if visits == [] then None
    else if visits[0].node.name == name then Some(visits[0].node.text)
    else FirstNamed(visits[1..], name)
  }

  lemma {:induction false} FirstNamedConcat(xs: seq<Visit>, ys: seq<Visit>, name: string)
    ensures FirstNamed(xs + ys, name) == if FirstNamed(xs, name).Some? then FirstNamed(xs, name) else FirstNamed(ys, name)
  {
    if xs == [] {
      assert xs + ys == ys;
    } else {
      FirstNamedConcat(xs[1..], ys, name);
      assert (xs + ys)[1..] == xs[1..] + ys;
    }
  }

  /** A name is looked up in document order. */
  lemma {:induction false} FindIsFirst(node: Node, parent: string, name: string)
    ensures Find(node, name) == FirstNamed(Preorder(node, parent), name)
    decreases node, 1
  {
    FindInIsFirst(node.children, node.name, name);
    assert Preorder(node, parent)[1..] == PreorderIn(node.children, node.name);
  }

  lemma {:induction false} FindInIsFirst(nodes: seq<Node>, parent: string, name: string)
    ensures FindIn(nodes, name) == FirstNamed(PreorderIn(nodes, parent), name)
    decreases nodes, 0
  {
    if nodes != [] {
      FindIsFirst(nodes[0], parent, name);
      FindInIsFirst(nodes[1..], parent, name);
      FirstNamedConcat(Preorder(nodes[0], parent), PreorderIn(nodes[1..], parent), name);
    }
  }

  /** A text that is there and not empty. */
  predicate Given(text: Option<string>) {
    text.Some? && text.value != ""
  }

  /** A leaf reads as its text, except folios and references to folios, which read as the name of the folio
      they mean when it has one: of the type its own element gives, or of the type it refers to. */
  lemma LeafReads(parent: Node, leaf: Node, labels: Labels)
    ensures var dte, doc, ref := Find(parent, "TipoDTE"), Find(parent, "TpoDoc"), Find(parent, "TpoDocRef");
            var folio, reference := leaf.name == "Folio" || leaf.name == "NroDoc", leaf.name == "FolioRef" || leaf.name == "FolioDocRef";
            var docType := if reference then (if Given(ref) then ref.value else "")
                           else if Given(dte) then dte.value else if Given(doc) then doc.value else "";
            && (!folio && !reference ==> LeafText(parent, leaf, labels) == leaf.text)
            && (folio || reference ==>
                  LeafText(parent, leaf, labels) ==
                  if Pair(docType, leaf.text) in labels.names then labels.names[Pair(docType, leaf.text)] else leaf.text)
  {
    hide Find;
  }

  // ---------------------------------------------------------------- the names of folios

  /** What a node declares: a document its type and folio; a line with a type its own, the number before
      the folio; a line of a guide book without one, a guide's. */
  lemma DeclaresExactly(node: Node, parent: string)
    ensures var document := node.name == "Documento" || node.name == "Liquidacion" || node.name == "Exportaciones";
            var line := node.name == "Detalle";
            var dte, doc, folio, number := Find(node, "TipoDTE"), Find(node, "TpoDoc"), Find(node, "Folio"), Find(node, "NroDoc");
            Declared(node, parent) ==
            if document && dte.Some? && folio.Some? then Some(Pair(dte.value, folio.value))
            else if line && doc.Some? && Given(number) then Some(Pair(doc.value, number.value))
            else if line && doc.Some? && folio.Some? then Some(Pair(doc.value, folio.value))
            else if line && doc.None? && parent == "EnvioLibro" && folio.Some? then Some(Pair("52", folio.value))
            else None
  {
    hide Find;
  }

  /** The folios of a type among some declarations, each once. */
  function OfType(pairs: seq<Pair>, docType: string): set<Pair> {
    set p <- pairs | p.docType == docType
  }

  lemma {:induction false} CountsExactly(pairs: seq<Pair>, docType: string)
    ensures CountOf(LabelAll(pairs), docType) == |OfType(pairs, docType)|
    ensures forall p :: p in LabelAll(pairs).names <==> p in pairs
  {
    if pairs == [] {
      assert OfType([], docType) == {};
    } else {
      var start, last := pairs[..|pairs| - 1], pairs[|pairs| - 1];
      CountsExactly(start, docType);
      CountsExactly(start, last.docType);
      assert pairs == start + [last];
      if last.docType == docType && last !in start {
        assert OfType(pairs, docType) == OfType(start, docType) + {last};
      } else {
        assert OfType(pairs, docType) == OfType(start, docType);
      }
      hide LabelText;
    }
  }

  /** A folio is named for its type and how many different ones of the type were declared up to where it
      first is. */
  lemma {:induction false} NamedByAppearance(pairs: seq<Pair>, i: nat)
    requires i < |pairs| && pairs[i] !in pairs[..i]
    ensures pairs[i] in LabelAll(pairs).names
    ensures LabelAll(pairs).names[pairs[i]] == pairs[i].docType + "#" + Text.Decimal(|OfType(pairs[..i], pairs[i].docType)| + 1)
    decreases |pairs|
  {
    var start, last := pairs[..|pairs| - 1], pairs[|pairs| - 1];
    CountsExactly(start, last.docType);
    if i < |start| {
      assert start[..i] == pairs[..i];
      NamedByAppearance(start, i);
      assert pairs[i] in start;
    } else {
      assert pairs[..i] == start;
    }
  }
}
