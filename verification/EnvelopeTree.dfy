/**
 The contents of an envelope, without what changes from one emission to the next: a tree
 flattened into paths and texts, with folios named by their order of appearance.
 */
module EnvelopeTree {
  import opened Wrappers
  import Text

  /** An XML node: its local name ("" for a comment or an instruction), its text with the
      surrounding blanks removed ("" for none), and its children. */
  datatype Node = Node(name: string, text: string, children: seq<Node>)

  /** What changes in every emission and is no part of the case. */
  const IGNORED: set<string> :=
    {"Signature", "TED", "TmstFirma", "TmstFirmaEnv", "FchEmis", "FchRef", "FchDoc", "FchVenc", "PeriodoTributario"}

  const DOCUMENTS: set<string> := {"Documento", "Liquidacion", "Exportaciones"}

  predicate Skipped(node: Node) {
    node.name == "" || node.name in IGNORED
  }

  /** The text of the first node with that name, in document order, the node itself included. */
  function Find(node: Node, name: string): Option<string>
    decreases node, 1
  {
    if node.name == name then Some(node.text) else FindIn(node.children, name)
  }

  function FindIn(nodes: seq<Node>, name: string): Option<string>
    decreases nodes, 0
  {
    if nodes == [] then None
    else if Find(nodes[0], name).Some? then Find(nodes[0], name)
    else FindIn(nodes[1..], name)
  }

  /** The first of two readings that found a text and not an empty one. */
  function OrElse(first: Option<string>, second: Option<string>): Option<string> {
    if first.Some? && first.value != "" then first else second
  }

  function TextOr(first: Option<string>, default: string): string {
    if first.Some? && first.value != "" then first.value else default
  }

  // ---------------------------------------------------------------- the folios an envelope declares

  /** A folio of a document type. */
  datatype Pair = Pair(docType: string, folio: string)

  /** What a node declares: a document its type and folio, a book line its own, a line of a guide
      book a folio of type 52. */
  function Declared(node: Node, parent: string): Option<Pair> {
    var (docType, folio) :=
      if node.name in DOCUMENTS then (Find(node, "TipoDTE"), Find(node, "Folio"))
      else if node.name == "Detalle" && Find(node, "TpoDoc").Some? then
        (Find(node, "TpoDoc"), OrElse(Find(node, "NroDoc"), Find(node, "Folio")))
      else if node.name == "Detalle" && parent == "EnvioLibro" then (Some("52"), Find(node, "Folio"))
      else (None, None);
    if docType.Some? && folio.Some? then Some(Pair(docType.value, folio.value)) else None
  }

  function AsSeq<T>(x: Option<T>): seq<T> {
    match x
    case None => []
    case Some(v) => [v]
  }

  /** Every declaration of the tree, in document order. */
  function Declarations(node: Node, parent: string): seq<Pair>
    decreases node, 1
  {
    AsSeq(Declared(node, parent)) + DeclarationsIn(node.children, node.name)
  }

  function DeclarationsIn(nodes: seq<Node>, parent: string): seq<Pair>
    decreases nodes, 0
  {
    if nodes == [] then [] else Declarations(nodes[0], parent) + DeclarationsIn(nodes[1..], parent)
  }

  /** The names given to folios so far, and how many documents of each type were named. */
  datatype Labels = Labels(names: map<Pair, string>, counts: map<string, nat>)

  const NO_LABELS := Labels(map[], map[])

  function CountOf(labels: Labels, docType: string): nat {
    if docType in labels.counts then labels.counts[docType] else 0
  }

  function LabelText(docType: string, n: nat): string {
    docType + "#" + Text.Decimal(n)
  }

  /** Names a folio, unless it has a name: the n-th document of its type. */
  function AddLabel(labels: Labels, pair: Pair): Labels {
    if pair in labels.names then labels
    else
      var n := CountOf(labels, pair.docType) + 1;
      Labels(labels.names[pair := LabelText(pair.docType, n)], labels.counts[pair.docType := n])
  }

  function LabelAll(pairs: seq<Pair>): Labels {
    if pairs == [] then NO_LABELS else AddLabel(LabelAll(pairs[..|pairs| - 1]), pairs[|pairs| - 1])
  }

  function LabelsOf(root: Node): Labels {
    LabelAll(Declarations(root, ""))
  }

  // ---------------------------------------------------------------- flattening

  /** The document type a folio under `parent` belongs to. */
  function TypeAt(parent: Node): string {
    TextOr(Find(parent, "TipoDTE"), TextOr(Find(parent, "TpoDoc"), ""))
  }

  function ReferencedTypeAt(parent: Node): string {
    TextOr(Find(parent, "TpoDocRef"), "")
  }

  predicate IsFolio(name: string) {
    name == "Folio" || name == "NroDoc"
  }

  predicate IsFolioReference(name: string) {
    name == "FolioRef" || name == "FolioDocRef"
  }

  function Named(labels: Labels, pair: Pair): string {
    if pair in labels.names then labels.names[pair] else pair.folio
  }

  function LeafText(parent: Node, leaf: Node, labels: Labels): string {
    if IsFolio(leaf.name) then Named(labels, Pair(TypeAt(parent), leaf.text))
    else if IsFolioReference(leaf.name) then Named(labels, Pair(ReferencedTypeAt(parent), leaf.text))
    else leaf.text
  }

  /** How many of the nodes that are not skipped have that name. */
  function CountNamed(nodes: seq<Node>, name: string): nat {
    if nodes == [] then 0
    else
      var last := nodes[|nodes| - 1];
      CountNamed(nodes[..|nodes| - 1], name) + if !Skipped(last) && last.name == name then 1 else 0
  }

  function Segment(name: string, n: nat): string {
    "/" + name + "[" + Text.Decimal(n) + "]"
  }

  datatype Entry = Entry(path: string, text: string)

  /** The position of child `i` among its namesakes, from 1. */
  function PathOf(node: Node, i: nat, path: string): string
    requires i < |node.children|
  {
    path + Segment(node.children[i].name, CountNamed(node.children[..i + 1], node.children[i].name))
  }

  /** What child `i` contributes: nothing, one leaf, or its own leaves. */
  function FlattenChild(node: Node, i: nat, path: string, labels: Labels): seq<Entry>
    requires i < |node.children|
    decreases node, 0
  {
    var child := node.children[i];
    if Skipped(child) then []
    else if child.children == [] then [Entry(PathOf(node, i, path), LeafText(node, child, labels))]
    else Flatten(child, PathOf(node, i, path), labels)
  }

  /** The leaves below a node, in document order. */
  function Flatten(node: Node, path: string, labels: Labels): seq<Entry>
    decreases node, |node.children| + 2
  {
    FlattenFirst(node, |node.children|, path, labels)
  }

  function FlattenFirst(node: Node, n: nat, path: string, labels: Labels): seq<Entry>
    requires n <= |node.children|
    decreases node, n + 1
  {
    if n == 0 then [] else FlattenFirst(node, n - 1, path, labels) + FlattenChild(node, n - 1, path, labels)
  }

  /** The reviewable contents of an envelope. */
  function Contents(root: Node): seq<Entry> {
    Flatten(root, "", LabelsOf(root))
  }
}
