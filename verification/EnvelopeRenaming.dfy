/**
 Two emissions of one set differ in their folios, dates, stamps and signatures. Their contents
 are equal exactly when every folio that changed is one the envelope declares: flattening forgets
 those differences and no others.
 */
module EnvelopeRenaming {
  import opened Wrappers
  import opened EnvelopeTree

  /** The new folio of each (type, folio). */
  type Renaming = (string, string) -> string

  function Apply(rho: Renaming, pair: Pair): Pair {
    Pair(pair.docType, rho(pair.docType, pair.folio))
  }

  // ---------------------------------------------------------------- the folios that occur in an envelope

  /** What flattening looks up for a leaf: a folio by the type of its parent, a reference by the
      type it refers to, anything else nothing. */
  function LookedUpLeaf(parent: Node, leaf: Node): seq<Pair> {
    if IsFolio(leaf.name) then [Pair(TypeAt(parent), leaf.text)]
    else if IsFolioReference(leaf.name) then [Pair(ReferencedTypeAt(parent), leaf.text)]
    else []
  }

  function LookedUpChild(node: Node, i: nat): seq<Pair>
    requires i < |node.children|
    decreases node, 0
  {
    var child := node.children[i];
    if Skipped(child) then []
    else if child.children == [] then LookedUpLeaf(node, child)
    else LookedUp(child)
  }

  /** Everything flattening looks up below a node, in document order. */
  function LookedUp(node: Node): seq<Pair>
    decreases node, |node.children| + 2
  {
    LookedUpFirst(node, |node.children|)
  }

  function LookedUpFirst(node: Node, n: nat): seq<Pair>
    requires n <= |node.children|
    decreases node, n + 1
  {
    if n == 0 then [] else LookedUpFirst(node, n - 1) + LookedUpChild(node, n - 1)
  }

  /** Every folio of the envelope: those it declares and those it looks up. */
  function Occurring(root: Node): set<Pair> {
    (set p <- LookedUp(root)) + (set p <- Declarations(root, ""))
  }

  /** Among the folios that occur, different ones of one type stay different, and no folio stays
      no folio. Nothing is asked of any other folio: the new ones may be any at all. */
  ghost predicate Fits(rho: Renaming, occurs: set<Pair>) {
    && (forall p, q :: p in occurs && q in occurs && Apply(rho, p) == Apply(rho, q) ==> p == q)
    && (forall p <- occurs :: rho(p.docType, p.folio) == "" <==> p.folio == "")
  }

  predicate Fixes(rho: Renaming, pair: Pair) {
    rho(pair.docType, pair.folio) == pair.folio
  }

  /** A guide-book line has no type of its own: it declares its folio as one of type 52. */
  function GuideFolio(node: Node, parent: string): seq<string> {
    if node.name == "Detalle" && parent == "EnvioLibro" && Find(node, "TpoDoc").None? then AsSeq(Find(node, "Folio")) else []
  }

  function GuideFolios(node: Node, parent: string): seq<string>
    decreases node, 1
  {
    GuideFolio(node, parent) + GuideFoliosIn(node.children, node.name)
  }

  function GuideFoliosIn(nodes: seq<Node>, parent: string): seq<string>
    decreases nodes, 0
  {
    if nodes == [] then [] else GuideFolios(nodes[0], parent) + GuideFoliosIn(nodes[1..], parent)
  }

  /** A guide has one new folio, whether it is read with its type or without. */
  ghost predicate GuidesAgree(rho: Renaming, folios: seq<string>) {
    forall f <- folios :: rho("", f) == rho("52", f)
  }

  const RELEVANT: set<string> :=
    {"TipoDTE", "TpoDoc", "TpoDocRef", "Folio", "NroDoc", "Documento", "Liquidacion", "Exportaciones", "Detalle"}

  /** Nothing inside is read when folios are named: true of stamps, signatures and dates. */
  predicate Quiet(node: Node) {
    node.name !in RELEVANT && forall c <- node.children :: Quiet(c)
  }

  /** The text of a node in the second emission. */
  function NewText(rho: Renaming, parent: Node, node: Node): string {
    if node.children == [] && IsFolio(node.name) then rho(TypeAt(parent), node.text)
    else if node.children == [] && IsFolioReference(node.name) then rho(ReferencedTypeAt(parent), node.text)
    else node.text
  }

  /** `b` is `a` as the second emission has it: ignored elements are anything else that is
      ignored, folios and references to them are renamed, all the rest is equal. */
  ghost predicate Twin(rho: Renaming, parent: Node, a: Node, b: Node)
    decreases a, 1
  {
    if Skipped(a) then Skipped(b) && Quiet(a) && Quiet(b)
    else a.name == b.name && b.text == NewText(rho, parent, a) && Twins(rho, a, a.children, b.children)
  }

  ghost predicate Twins(rho: Renaming, parent: Node, xs: seq<Node>, ys: seq<Node>)
    decreases xs, 0
  {
    |xs| == |ys| && (xs != [] ==> Twin(rho, parent, xs[0], ys[0]) && Twins(rho, parent, xs[1..], ys[1..]))
  }

  /** The same for the root, which no folio hangs from. */
  ghost predicate TwinRoots(rho: Renaming, a: Node, b: Node) {
    !Skipped(a) && a.name == b.name && a.text == b.text && !IsFolio(a.name) && Twins(rho, a, a.children, b.children)
  }

  // ---------------------------------------------------------------- reading the twin

  predicate IsTypeName(name: string) {
    name == "TipoDTE" || name == "TpoDoc" || name == "TpoDocRef"
  }

  lemma {:induction false} QuietFindsNothing(node: Node, name: string)
    requires Quiet(node) && name in RELEVANT
    ensures Find(node, name).None?
    decreases node, 1
  {
    QuietListFindsNothing(node.children, name);
  }

  lemma {:induction false} QuietListFindsNothing(nodes: seq<Node>, name: string)
    requires (forall c <- nodes :: Quiet(c)) && name in RELEVANT
    ensures FindIn(nodes, name).None?
    decreases nodes, 0
  {
    if nodes != [] {
      QuietFindsNothing(nodes[0], name);
      QuietListFindsNothing(nodes[1..], name);
    }
  }

  /** Document types read the same in both emissions. */
  lemma {:induction false} TypesReadTheSame(rho: Renaming, parent: Node, a: Node, b: Node, name: string)
    requires Twin(rho, parent, a, b) && IsTypeName(name)
    ensures Find(a, name) == Find(b, name)
    decreases a, 1
  {
    if Skipped(a) {
      QuietFindsNothing(a, name);
      QuietFindsNothing(b, name);
    } else {
      TypesReadTheSameIn(rho, a, a.children, b.children, name);
    }
  }

  lemma {:induction false} TypesReadTheSameIn(rho: Renaming, parent: Node, xs: seq<Node>, ys: seq<Node>, name: string)
    requires Twins(rho, parent, xs, ys) && IsTypeName(name)
    ensures FindIn(xs, name) == FindIn(ys, name)
    decreases xs, 0
  {
    if xs != [] {
      TypesReadTheSame(rho, parent, xs[0], ys[0], name);
      TypesReadTheSameIn(rho, parent, xs[1..], ys[1..], name);
    }
  }

  /** The first node of that name with the type its parent gives it; `leaf` when it has no
      children. */
  datatype Owned = Owned(docType: string, text: string, leaf: bool)

  function FindOwned(parent: Node, node: Node, name: string): Option<Owned>
    decreases node, 1
  {
    if node.name == name then Some(Owned(TypeAt(parent), node.text, node.children == []))
    else FindOwnedIn(node, node.children, name)
  }

  function FindOwnedIn(parent: Node, nodes: seq<Node>, name: string): Option<Owned>
    decreases nodes, 0
  {
    if nodes == [] then None
    else if FindOwned(parent, nodes[0], name).Some? then FindOwned(parent, nodes[0], name)
    else FindOwnedIn(parent, nodes[1..], name)
  }

  function NewOwned(rho: Renaming, owned: Option<Owned>): Option<string> {
    match owned
    case None => None
    case Some(o) => Some(if o.leaf then rho(o.docType, o.text) else o.text)
  }

  function TextOf(owned: Option<Owned>): Option<string> {
    match owned
    case None => None
    case Some(o) => Some(o.text)
  }

  /** The first folio reads renamed in the second emission, by the type its own parent has. */
  lemma {:induction false} FoliosReadRenamed(rho: Renaming, parent: Node, a: Node, b: Node, name: string)
    requires Twin(rho, parent, a, b) && IsFolio(name)
    ensures Find(a, name) == TextOf(FindOwned(parent, a, name))
    ensures Find(b, name) == NewOwned(rho, FindOwned(parent, a, name))
    decreases a, 1
  {
    if Skipped(a) {
      QuietFindsNothing(a, name);
      QuietFindsNothing(b, name);
      QuietOwnsNothing(parent, a, name);
    } else {
      FoliosReadRenamedIn(rho, a, a.children, b.children, name);
    }
  }

  lemma {:induction false} FoliosReadRenamedIn(rho: Renaming, parent: Node, xs: seq<Node>, ys: seq<Node>, name: string)
    requires Twins(rho, parent, xs, ys) && IsFolio(name)
    ensures FindIn(xs, name) == TextOf(FindOwnedIn(parent, xs, name))
    ensures FindIn(ys, name) == NewOwned(rho, FindOwnedIn(parent, xs, name))
    decreases xs, 0
  {
    if xs != [] {
      FoliosReadRenamed(rho, parent, xs[0], ys[0], name);
      FoliosReadRenamedIn(rho, parent, xs[1..], ys[1..], name);
    }
  }

  lemma {:induction false} QuietOwnsNothing(parent: Node, node: Node, name: string)
    requires Quiet(node) && name in RELEVANT
    ensures FindOwned(parent, node, name).None?
    decreases node, 1
  {
    QuietListOwnsNothing(node, node.children, name);
  }

  lemma {:induction false} QuietListOwnsNothing(parent: Node, nodes: seq<Node>, name: string)
    requires (forall c <- nodes :: Quiet(c)) && name in RELEVANT
    ensures FindOwnedIn(parent, nodes, name).None?
    decreases nodes, 0
  {
    if nodes != [] {
      QuietOwnsNothing(parent, nodes[0], name);
      QuietListOwnsNothing(parent, nodes[1..], name);
    }
  }

  lemma {:induction false} FindReadsOwned(parent: Node, node: Node, name: string)
    ensures Find(node, name) == TextOf(FindOwned(parent, node, name))
    decreases node, 1
  {
    FindInReadsOwned(node, node.children, name);
  }

  lemma {:induction false} FindInReadsOwned(parent: Node, nodes: seq<Node>, name: string)
    ensures FindIn(nodes, name) == TextOf(FindOwnedIn(parent, nodes, name))
    decreases nodes, 0
  {
    if nodes != [] {
      FindReadsOwned(parent, nodes[0], name);
      FindInReadsOwned(parent, nodes[1..], name);
    }
  }

  predicate IgnoredAreQuiet(node: Node)
    decreases node, 1
  {
    if Skipped(node) then Quiet(node) else IgnoredAreQuietIn(node.children)
  }

  predicate IgnoredAreQuietIn(nodes: seq<Node>)
    decreases nodes, 0
  {
    nodes != [] ==> IgnoredAreQuiet(nodes[0]) && IgnoredAreQuietIn(nodes[1..])
  }

  lemma {:induction false} TwinIgnoresQuiet(rho: Renaming, parent: Node, a: Node, b: Node)
    requires Twin(rho, parent, a, b)
    ensures IgnoredAreQuiet(a)
    decreases a, 1
  {
    if !Skipped(a) {
      TwinsIgnoreQuiet(rho, a, a.children, b.children);
    }
  }

  lemma {:induction false} TwinsIgnoreQuiet(rho: Renaming, parent: Node, xs: seq<Node>, ys: seq<Node>)
    requires Twins(rho, parent, xs, ys)
    ensures IgnoredAreQuietIn(xs)
    decreases xs, 0
  {
    if xs != [] {
      TwinIgnoresQuiet(rho, parent, xs[0], ys[0]);
      TwinsIgnoreQuiet(rho, parent, xs[1..], ys[1..]);
    }
  }

  lemma {:induction false} QuietEach(nodes: seq<Node>, i: nat)
    requires IgnoredAreQuietIn(nodes) && i < |nodes|
    ensures IgnoredAreQuiet(nodes[i])
    decreases i
  {
    if i > 0 {
      QuietEach(nodes[1..], i - 1);
    }
  }

  lemma {:induction false} ChildIsLookedUp(node: Node, n: nat, i: nat)
    requires i < n <= |node.children|
    ensures forall p <- LookedUpChild(node, i) :: p in LookedUpFirst(node, n)
  {
    if i < n - 1 {
      ChildIsLookedUp(node, n - 1, i);
    }
  }

  lemma SubtreeIsLookedUp(node: Node, i: nat)
    requires i < |node.children|
    ensures !Skipped(node.children[i]) ==> forall p <- LookedUp(node.children[i]) :: p in LookedUp(node)
  {
    var child := node.children[i];
    ChildIsLookedUp(node, |node.children|, i);
    if child.children == [] {
      assert LookedUp(child) == [];
    } else if !Skipped(child) {
      assert LookedUpChild(node, i) == LookedUp(child);
    }
  }

  /** The folio a node is read to have is one that flattening looks up, when it is a leaf. */
  lemma {:induction false} OwnedIsLookedUp(node: Node, i: nat, name: string)
    requires IsFolio(name) && IgnoredAreQuietIn(node.children) && i <= |node.children|
    ensures var owned := FindOwnedIn(node, node.children[i..], name);
            owned.Some? && owned.value.leaf ==> Pair(owned.value.docType, owned.value.text) in LookedUp(node)
    decreases node, |node.children| - i + 1
  {
    if i < |node.children| {
      var rest := node.children[i..];
      assert rest[0] == node.children[i] && rest[1..] == node.children[i + 1..];
      if FindOwned(node, node.children[i], name).Some? {
        OwnedChildIsLookedUp(node, i, name);
        ChildIsLookedUp(node, |node.children|, i);
      } else {
        OwnedIsLookedUp(node, i + 1, name);
      }
    }
  }

  lemma {:induction false} OwnedChildIsLookedUp(node: Node, i: nat, name: string)
    requires IsFolio(name) && IgnoredAreQuietIn(node.children) && i < |node.children|
    ensures var owned := FindOwned(node, node.children[i], name);
            owned.Some? && owned.value.leaf ==> Pair(owned.value.docType, owned.value.text) in LookedUpChild(node, i)
    decreases node, 0
  {
    var child := node.children[i];
    QuietEach(node.children, i);
    if Skipped(child) {
      QuietOwnsNothing(node, child, name);
    } else if child.name != name {
      assert child.children[0..] == child.children;
      OwnedIsLookedUp(child, 0, name);
    }
  }

  // ---------------------------------------------------------------- envelopes that say what they declare

  /** A folio is a leaf, and its parent gives it the type its document declares. */
  predicate OwnedBy(owned: Option<Owned>, docType: Option<string>) {
    owned.Some? && docType.Some? ==> owned.value.leaf && owned.value.docType == docType.value
  }

  /** The folio a node declares is one flattening looks up: its type is read from the same element,
      and that of a guide-book line is read as none. */
  predicate SpeaksForItself(node: Node, parent: string) {
    if node.name in DOCUMENTS then OwnedBy(FindOwnedIn(node, node.children, "Folio"), Find(node, "TipoDTE"))
    else if node.name == "Detalle" && Find(node, "TpoDoc").Some? then
      && OwnedBy(FindOwnedIn(node, node.children, "NroDoc"), Find(node, "TpoDoc"))
      && OwnedBy(FindOwnedIn(node, node.children, "Folio"), Find(node, "TpoDoc"))
    else node.name == "Detalle" && parent == "EnvioLibro" ==> OwnedBy(FindOwnedIn(node, node.children, "Folio"), Some(""))
  }

  predicate AllSpeak(node: Node, parent: string)
    decreases node, 1
  {
    SpeaksForItself(node, parent) && AllSpeakIn(node.children, node.name)
  }

  predicate AllSpeakIn(nodes: seq<Node>, parent: string)
    decreases nodes, 0
  {
    nodes != [] ==> AllSpeak(nodes[0], parent) && AllSpeakIn(nodes[1..], parent)
  }

  function ApplyAll(rho: Renaming, pairs: seq<Pair>): (r: seq<Pair>)
    ensures |r| == |pairs| && forall i :: 0 <= i < |pairs| ==> r[i] == Apply(rho, pairs[i])
  {
    seq(|pairs|, i requires 0 <= i < |pairs| => Apply(rho, pairs[i]))
  }

  lemma ApplyAllConcat(rho: Renaming, xs: seq<Pair>, ys: seq<Pair>)
    ensures ApplyAll(rho, xs + ys) == ApplyAll(rho, xs) + ApplyAll(rho, ys)
  {
  }

  function ApplyOption(rho: Renaming, pair: Option<Pair>): Option<Pair> {
    match pair
    case None => None
    case Some(p) => Some(Apply(rho, p))
  }

  ghost predicate Within(pairs: seq<Pair>, occurs: set<Pair>) {
    forall p <- pairs :: p in occurs
  }

  /** A node declares in the second emission what it declared in the first, renamed. */
  lemma DeclaredIsRenamed(rho: Renaming, occurs: set<Pair>, a: Node, b: Node, parent: string)
    requires Fits(rho, occurs) && Within(LookedUp(a), occurs) && GuidesAgree(rho, GuideFolio(a, parent))
    requires a.name == b.name && Twins(rho, a, a.children, b.children) && SpeaksForItself(a, parent)
    ensures Declared(b, parent) == ApplyOption(rho, Declared(a, parent))
  {
    if a.name in DOCUMENTS || a.name == "Detalle" {
      assert !IsFolio(a.name) && !IsTypeName(a.name);
      TypesReadTheSameIn(rho, a, a.children, b.children, "TipoDTE");
      TypesReadTheSameIn(rho, a, a.children, b.children, "TpoDoc");
      FoliosReadRenamedIn(rho, a, a.children, b.children, "Folio");
      FoliosReadRenamedIn(rho, a, a.children, b.children, "NroDoc");
      TwinsIgnoreQuiet(rho, a, a.children, b.children);
      assert a.children[0..] == a.children;
      OwnedIsLookedUp(a, 0, "NroDoc");
      assert Find(b, "TipoDTE") == Find(a, "TipoDTE") && Find(b, "TpoDoc") == Find(a, "TpoDoc");
      var folio, number := FindOwnedIn(a, a.children, "Folio"), FindOwnedIn(a, a.children, "NroDoc");
      assert Find(b, "Folio") == NewOwned(rho, folio) && Find(a, "Folio") == TextOf(folio);
      assert Find(b, "NroDoc") == NewOwned(rho, number) && Find(a, "NroDoc") == TextOf(number);
      hide Find, FindIn, FindOwnedIn, Twins, LookedUp;
      if a.name == "Detalle" && Find(a, "TpoDoc").Some? {
        if number.Some? {
          assert Pair(Find(a, "TpoDoc").value, number.value.text) in occurs;
        }
      } else if a.name == "Detalle" && parent == "EnvioLibro" && folio.Some? {
        assert folio.value.text in GuideFolio(a, parent);
      }
    }
  }

  lemma {:induction false} QuietDeclaresNothing(node: Node, parent: string)
    requires Quiet(node)
    ensures Declarations(node, parent) == []
    decreases node, 1
  {
    QuietListDeclaresNothing(node.children, node.name);
  }

  lemma {:induction false} QuietListDeclaresNothing(nodes: seq<Node>, parent: string)
    requires forall c <- nodes :: Quiet(c)
    ensures DeclarationsIn(nodes, parent) == []
    decreases nodes, 0
  {
    if nodes != [] {
      QuietDeclaresNothing(nodes[0], parent);
      QuietListDeclaresNothing(nodes[1..], parent);
    }
  }

  lemma {:induction false} DeclarationsAreRenamed(rho: Renaming, occurs: set<Pair>, parent: Node, a: Node, b: Node)
    requires Fits(rho, occurs) && Twin(rho, parent, a, b) && AllSpeak(a, parent.name)
    requires !Skipped(a) ==> Within(LookedUp(a), occurs)
    requires GuidesAgree(rho, GuideFolios(a, parent.name))
    ensures Declarations(b, parent.name) == ApplyAll(rho, Declarations(a, parent.name))
    decreases a, 1
  {
    if Skipped(a) {
      QuietDeclaresNothing(a, parent.name);
      QuietDeclaresNothing(b, parent.name);
    } else {
      DeclaredIsRenamed(rho, occurs, a, b, parent.name);
      assert AsSeq(Declared(b, parent.name)) == ApplyAll(rho, AsSeq(Declared(a, parent.name)));
      assert a.children[0..] == a.children;
      DeclarationsInAreRenamed(rho, occurs, a, 0, b.children);
      ApplyAllConcat(rho, AsSeq(Declared(a, parent.name)), DeclarationsIn(a.children, a.name));
    }
  }

  /** The same for the children from the `i`-th on. */
  lemma {:induction false} DeclarationsInAreRenamed(rho: Renaming, occurs: set<Pair>, parent: Node, i: nat, ys: seq<Node>)
    requires Fits(rho, occurs) && i <= |parent.children| && Twins(rho, parent, parent.children[i..], ys)
    requires AllSpeakIn(parent.children[i..], parent.name)
    requires Within(LookedUp(parent), occurs)
    requires GuidesAgree(rho, GuideFoliosIn(parent.children[i..], parent.name))
    ensures DeclarationsIn(ys, parent.name) == ApplyAll(rho, DeclarationsIn(parent.children[i..], parent.name))
    decreases parent, 0, |parent.children| - i
  {
    var xs := parent.children[i..];
    if xs != [] {
      assert xs[0] == parent.children[i] && xs[1..] == parent.children[i + 1..];
      SubtreeIsLookedUp(parent, i);
      DeclarationsAreRenamed(rho, occurs, parent, xs[0], ys[0]);
      DeclarationsInAreRenamed(rho, occurs, parent, i + 1, ys[1..]);
      ApplyAllConcat(rho, Declarations(xs[0], parent.name), DeclarationsIn(xs[1..], parent.name));
    }
  }

  // ---------------------------------------------------------------- names survive renaming

  /** Corresponding folios have the same text, among those that occur. */
  ghost predicate SameTexts(rho: Renaming, occurs: set<Pair>, a: map<Pair, string>, b: map<Pair, string>) {
    && (forall p <- occurs :: p in a <==> Apply(rho, p) in b)
    && forall p <- a :: p in occurs && b[Apply(rho, p)] == a[p]
  }

  /** The two emissions name corresponding folios alike. */
  ghost predicate SameNames(rho: Renaming, occurs: set<Pair>, a: Labels, b: Labels) {
    a.counts == b.counts && SameTexts(rho, occurs, a.names, b.names)
  }

  /** No other folio that occurs gets the new folio of this one. */
  ghost predicate Unshared(rho: Renaming, occurs: set<Pair>, pair: Pair) {
    pair in occurs && forall p <- occurs :: Apply(rho, p) == Apply(rho, pair) ==> p == pair
  }

  lemma AddTextSurvives(rho: Renaming, occurs: set<Pair>, a: map<Pair, string>, b: map<Pair, string>, pair: Pair, text: string)
    requires Unshared(rho, occurs, pair) && SameTexts(rho, occurs, a, b)
    ensures SameTexts(rho, occurs, a[pair := text], b[Apply(rho, pair) := text])
  {
    hide Apply;
  }

  lemma SameMembers(rho: Renaming, occurs: set<Pair>, a: map<Pair, string>, b: map<Pair, string>, pair: Pair)
    requires SameTexts(rho, occurs, a, b) && pair in occurs
    ensures pair in a <==> Apply(rho, pair) in b
    ensures Apply(rho, pair).docType == pair.docType
  {
  }

  lemma AddLabelSurvives(rho: Renaming, occurs: set<Pair>, a: Labels, b: Labels, pair: Pair)
    requires Unshared(rho, occurs, pair) && SameNames(rho, occurs, a, b)
    ensures SameNames(rho, occurs, AddLabel(a, pair), AddLabel(b, Apply(rho, pair)))
  {
    SameMembers(rho, occurs, a.names, b.names, pair);
    AddTextSurvives(rho, occurs, a.names, b.names, pair, LabelText(pair.docType, CountOf(a, pair.docType) + 1));
    hide LabelText, Apply, SameTexts, Unshared;
  }

  lemma {:induction false} LabelsSurvive(rho: Renaming, occurs: set<Pair>, pairs: seq<Pair>)
    requires Fits(rho, occurs) && Within(pairs, occurs)
    ensures SameNames(rho, occurs, LabelAll(pairs), LabelAll(ApplyAll(rho, pairs)))
  {
    if pairs != [] {
      var start, last := pairs[..|pairs| - 1], pairs[|pairs| - 1];
      LabelsSurvive(rho, occurs, start);
      assert ApplyAll(rho, pairs)[..|pairs| - 1] == ApplyAll(rho, start);
      assert Unshared(rho, occurs, last);
      hide AddLabel, SameNames, Fits;
      AddLabelSurvives(rho, occurs, LabelAll(start), LabelAll(ApplyAll(rho, start)), last);
    }
  }

  lemma {:induction false} LabelledAreDeclared(pairs: seq<Pair>)
    ensures forall p :: p in LabelAll(pairs).names <==> p in pairs
  {
    if pairs != [] {
      LabelledAreDeclared(pairs[..|pairs| - 1]);
    }
  }

  /** A folio and its renaming get the same text. */
  ghost predicate NamedAlike(rho: Renaming, la: Labels, lb: Labels, pair: Pair) {
    Named(lb, Apply(rho, pair)) == Named(la, pair)
  }

  /** They do exactly when the folio is declared, and so has a name, or did not change. */
  lemma NamedAlikeExactly(rho: Renaming, occurs: set<Pair>, declared: seq<Pair>, pair: Pair)
    requires Fits(rho, occurs) && Within(declared, occurs) && pair in occurs
    ensures NamedAlike(rho, LabelAll(declared), LabelAll(ApplyAll(rho, declared)), pair) <==>
            pair in declared || Fixes(rho, pair)
  {
    LabelsSurvive(rho, occurs, declared);
    LabelledAreDeclared(declared);
    hide LabelAll, Fits;
    SameMembers(rho, occurs, LabelAll(declared).names, LabelAll(ApplyAll(rho, declared)).names, pair);
  }

  // ---------------------------------------------------------------- contents survive renaming

  /** Skipped nodes and names are the same in both emissions, so namesakes count alike. */
  lemma {:induction false} NamesakesCountAlike(rho: Renaming, parent: Node, xs: seq<Node>, ys: seq<Node>, n: nat, name: string)
    requires |xs| == |ys| && n <= |xs| && forall i :: 0 <= i < |xs| ==> Twin(rho, parent, xs[i], ys[i])
    ensures CountNamed(xs[..n], name) == CountNamed(ys[..n], name)
  {
    hide Quiet, Twins;
    if n > 0 {
      NamesakesCountAlike(rho, parent, xs, ys, n - 1, name);
      assert xs[..n][..n - 1] == xs[..n - 1] && ys[..n][..n - 1] == ys[..n - 1];
    }
  }

  lemma {:induction false} TwinsEach(rho: Renaming, parent: Node, xs: seq<Node>, ys: seq<Node>)
    requires Twins(rho, parent, xs, ys)
    ensures |xs| == |ys| && forall i :: 0 <= i < |xs| ==> Twin(rho, parent, xs[i], ys[i])
    decreases |xs|
  {
    hide Twin;
    if xs != [] {
      TwinsEach(rho, parent, xs[1..], ys[1..]);
      forall i | 0 <= i < |xs| ensures Twin(rho, parent, xs[i], ys[i]) {
        if i > 0 {
          assert xs[i] == xs[1..][i - 1] && ys[i] == ys[1..][i - 1];
        }
      }
    }
  }

  ghost predicate AllNamedAlike(rho: Renaming, la: Labels, lb: Labels, pairs: seq<Pair>) {
    forall p <- pairs :: NamedAlike(rho, la, lb, p)
  }

  lemma AllNamedAlikeConcat(rho: Renaming, la: Labels, lb: Labels, xs: seq<Pair>, ys: seq<Pair>)
    ensures AllNamedAlike(rho, la, lb, xs + ys) <==> AllNamedAlike(rho, la, lb, xs) && AllNamedAlike(rho, la, lb, ys)
  {
    hide NamedAlike;
    assert forall p :: p in xs + ys <==> p in xs || p in ys;
  }

  lemma LeafTextsAgreeExactly(rho: Renaming, la: Labels, lb: Labels, pa: Node, pb: Node, a: Node, b: Node)
    requires Find(pa, "TipoDTE") == Find(pb, "TipoDTE") && Find(pa, "TpoDoc") == Find(pb, "TpoDoc")
             && Find(pa, "TpoDocRef") == Find(pb, "TpoDocRef")
    requires a.children == [] && a.name == b.name && b.text == NewText(rho, pa, a)
    ensures LeafText(pa, a, la) == LeafText(pb, b, lb) <==> AllNamedAlike(rho, la, lb, LookedUpLeaf(pa, a))
  {
    hide Find;
    assert TypeAt(pa) == TypeAt(pb) && ReferencedTypeAt(pa) == ReferencedTypeAt(pb);
    hide TypeAt, ReferencedTypeAt;
    OneNamedAlike(rho, la, lb, Pair(TypeAt(pa), a.text));
    OneNamedAlike(rho, la, lb, Pair(ReferencedTypeAt(pa), a.text));
    NothingToName(rho, la, lb);
    hide AllNamedAlike;
  }

  lemma OneNamedAlike(rho: Renaming, la: Labels, lb: Labels, pair: Pair)
    ensures AllNamedAlike(rho, la, lb, [pair]) <==> NamedAlike(rho, la, lb, pair)
  {
    hide NamedAlike;
    assert [pair][0] == pair;
  }

  lemma ConcatAgrees<T>(a: seq<T>, b: seq<T>, c: seq<T>, d: seq<T>)
    requires |a| == |b| && |c| == |d|
    ensures a + c == b + d <==> a == b && c == d
  {
    if a + c == b + d {
      assert a == (a + c)[..|a|] && b == (b + d)[..|b|];
      assert c == (a + c)[|a|..] && d == (b + d)[|b|..];
    }
  }

  /** The entries of both emissions, one for one: equal exactly when all that is looked up below is
      named alike. */
  ghost predicate AgreeExactly(rho: Renaming, la: Labels, lb: Labels, xs: seq<Entry>, ys: seq<Entry>, pairs: seq<Pair>) {
    |xs| == |ys| && (xs == ys <==> AllNamedAlike(rho, la, lb, pairs))
  }

  lemma {:induction false} FlattenAgreesExactly(rho: Renaming, la: Labels, lb: Labels, a: Node, b: Node, path: string)
    requires a.name == b.name && Twins(rho, a, a.children, b.children) && (IsTypeName(a.name) ==> a.text == b.text)
    ensures AgreeExactly(rho, la, lb, Flatten(a, path, la), Flatten(b, path, lb), LookedUp(a))
    decreases a, |a.children| + 2
  {
    TwinsEach(rho, a, a.children, b.children);
    FlattenFirstAgreesExactly(rho, la, lb, a, b, |a.children|, path);
  }

  lemma {:induction false} FlattenFirstAgreesExactly(
      rho: Renaming, la: Labels, lb: Labels, a: Node, b: Node, n: nat, path: string)
    requires a.name == b.name && Twins(rho, a, a.children, b.children) && (IsTypeName(a.name) ==> a.text == b.text)
    requires n <= |a.children| == |b.children|
    ensures AgreeExactly(rho, la, lb, FlattenFirst(a, n, path, la), FlattenFirst(b, n, path, lb), LookedUpFirst(a, n))
    decreases a, n + 1
  {
    if n > 0 {
      FlattenFirstAgreesExactly(rho, la, lb, a, b, n - 1, path);
      FlattenChildAgreesExactly(rho, la, lb, a, b, n - 1, path);
      ConcatAgrees(FlattenFirst(a, n - 1, path, la), FlattenFirst(b, n - 1, path, lb),
                   FlattenChild(a, n - 1, path, la), FlattenChild(b, n - 1, path, lb));
      AllNamedAlikeConcat(rho, la, lb, LookedUpFirst(a, n - 1), LookedUpChild(a, n - 1));
    }
  }

  lemma {:induction false} FlattenChildAgreesExactly(
      rho: Renaming, la: Labels, lb: Labels, a: Node, b: Node, i: nat, path: string)
    requires a.name == b.name && Twins(rho, a, a.children, b.children) && (IsTypeName(a.name) ==> a.text == b.text)
    requires i < |a.children| == |b.children|
    ensures AgreeExactly(rho, la, lb, FlattenChild(a, i, path, la), FlattenChild(b, i, path, lb), LookedUpChild(a, i))
    decreases a, 0
  {
    hide AllNamedAlike;
    TwinsEach(rho, a, a.children, b.children);
    var c, d := a.children[i], b.children[i];
    assert Twin(rho, a, c, d);
    if Skipped(c) {
      NothingToName(rho, la, lb);
    } else {
      NamesakesCountAlike(rho, a, a.children, b.children, i + 1, c.name);
      assert PathOf(a, i, path) == PathOf(b, i, path);
      if c.children == [] {
        TypesOfParents(rho, a, b, "TipoDTE");
        TypesOfParents(rho, a, b, "TpoDoc");
        TypesOfParents(rho, a, b, "TpoDocRef");
        assert d.children == [];
        LeafTextsAgreeExactly(rho, la, lb, a, b, c, d);
        hide LeafText, LookedUpLeaf, PathOf, Twins, Find;
        assert FlattenChild(a, i, path, la) == [Entry(PathOf(a, i, path), LeafText(a, c, la))];
        assert FlattenChild(b, i, path, lb) == [Entry(PathOf(b, i, path), LeafText(b, d, lb))];
      } else {
        assert d.children != [];
        FlattenAgreesExactly(rho, la, lb, c, d, PathOf(a, i, path));
      }
    }
  }

  lemma NothingToName(rho: Renaming, la: Labels, lb: Labels)
    ensures AllNamedAlike(rho, la, lb, [])
  {
  }

  lemma TypesOfParents(rho: Renaming, a: Node, b: Node, name: string)
    requires a.name == b.name && Twins(rho, a, a.children, b.children) && IsTypeName(name)
    requires IsTypeName(a.name) ==> a.text == b.text
    ensures Find(a, name) == Find(b, name)
  {
    TypesReadTheSameIn(rho, a, a.children, b.children, name);
  }

  /** `b` is a second emission of `a`: its twin under a renaming of the folios that occur in `a`. */
  ghost predicate SecondEmission(rho: Renaming, a: Node, b: Node) {
    && TwinRoots(rho, a, b) && AllSpeak(a, "")
    && Fits(rho, Occurring(a)) && GuidesAgree(rho, GuideFolios(a, ""))
  }

  lemma DeclarationsOfTheSecond(rho: Renaming, a: Node, b: Node)
    requires SecondEmission(rho, a, b)
    ensures Declarations(b, "") == ApplyAll(rho, Declarations(a, ""))
  {
    var occurs := Occurring(a);
    assert Within(LookedUp(a), occurs);
    assert a.children[0..] == a.children;
    DeclaredIsRenamed(rho, occurs, a, b, "");
    DeclarationsInAreRenamed(rho, occurs, a, 0, b.children);
    assert AsSeq(Declared(b, "")) == ApplyAll(rho, AsSeq(Declared(a, "")));
    ApplyAllConcat(rho, AsSeq(Declared(a, "")), DeclarationsIn(a.children, a.name));
  }

  /** The contents of a second emission are those of the first exactly when every folio it looks up
      without declaring it, as of documents outside the envelope, is the same in both. What the
      declared folios become, and what happens to anything ignored, makes no difference. */
  lemma ContentsSurviveExactly(rho: Renaming, a: Node, b: Node)
    requires SecondEmission(rho, a, b)
    ensures Contents(a) == Contents(b) <==> forall p <- LookedUp(a) :: p in Declarations(a, "") || Fixes(rho, p)
  {
    var declared, occurs := Declarations(a, ""), Occurring(a);
    DeclarationsOfTheSecond(rho, a, b);
    FlattenAgreesExactly(rho, LabelsOf(a), LabelsOf(b), a, b, "");
    hide Flatten, LabelAll, Fits, AllSpeak, TwinRoots, NamedAlike, Fixes, GuidesAgree;
    forall p | p in LookedUp(a)
      ensures NamedAlike(rho, LabelsOf(a), LabelsOf(b), p) <==> p in declared || Fixes(rho, p)
    {
      NamedAlikeExactly(rho, occurs, declared, p);
    }
  }

  /** Renaming the folios an envelope declares, to any folios at all that keep them distinct, and
      changing anything that is ignored, leaves its contents as they were. */
  lemma ContentsSurviveRenaming(rho: Renaming, a: Node, b: Node)
    requires SecondEmission(rho, a, b)
    requires forall p <- LookedUp(a) :: p !in Declarations(a, "") ==> Fixes(rho, p)
    ensures Contents(a) == Contents(b)
  {
    ContentsSurviveExactly(rho, a, b);
  }

  // ---------------------------------------------------------------- guide books

  lemma {:induction false} QuietGuidesNothing(node: Node, parent: string)
    requires Quiet(node)
    ensures GuideFolios(node, parent) == []
    decreases node, 1
  {
    QuietListGuidesNothing(node.children, node.name);
  }

  lemma {:induction false} QuietListGuidesNothing(nodes: seq<Node>, parent: string)
    requires forall c <- nodes :: Quiet(c)
    ensures GuideFoliosIn(nodes, parent) == []
    decreases nodes, 0
  {
    if nodes != [] {
      QuietGuidesNothing(nodes[0], parent);
      QuietListGuidesNothing(nodes[1..], parent);
    }
  }

  /** Every folio of a guide-book line is looked up without a type. */
  lemma {:induction false} GuidesAreLookedUp(node: Node, parent: string)
    requires AllSpeak(node, parent) && IgnoredAreQuietIn(node.children)
    ensures forall f <- GuideFolios(node, parent) :: Pair("", f) in LookedUp(node)
    decreases node, 1
  {
    assert node.children[0..] == node.children;
    GuidesInAreLookedUp(node, 0);
    if GuideFolio(node, parent) != [] {
      FindReadsOwned(node, node, "Folio");
      OwnedIsLookedUp(node, 0, "Folio");
      assert GuideFolio(node, parent) == [Find(node, "Folio").value];
      assert FindOwned(node, node, "Folio") == FindOwnedIn(node, node.children, "Folio");
    }
  }

  lemma {:induction false} GuidesInAreLookedUp(node: Node, i: nat)
    requires i <= |node.children| && AllSpeakIn(node.children[i..], node.name) && IgnoredAreQuietIn(node.children)
    ensures forall f <- GuideFoliosIn(node.children[i..], node.name) :: Pair("", f) in LookedUp(node)
    decreases node, 0, |node.children| - i
  {
    var xs := node.children[i..];
    if xs != [] {
      assert xs[0] == node.children[i] && xs[1..] == node.children[i + 1..];
      QuietEach(node.children, i);
      if Skipped(xs[0]) {
        QuietGuidesNothing(xs[0], node.name);
      } else {
        GuidesAreLookedUp(xs[0], node.name);
        SubtreeIsLookedUp(node, i);
      }
      GuidesInAreLookedUp(node, i + 1);
    }
  }

  /** A guide book declares its lines as type 52 and looks them up without a type. So, when nothing
      else that it looks up changed undeclared, its contents survive exactly when every guide kept
      its folio. */
  lemma GuideBooksSurviveExactly(rho: Renaming, a: Node, b: Node)
    requires SecondEmission(rho, a, b)
    requires forall p <- LookedUp(a) ::
               p in Declarations(a, "") || Fixes(rho, p) || (p.docType == "" && p.folio in GuideFolios(a, ""))
    requires forall f <- GuideFolios(a, "") :: Pair("", f) !in Declarations(a, "")
    ensures Contents(a) == Contents(b) <==> forall f <- GuideFolios(a, "") :: rho("", f) == f
  {
    ContentsSurviveExactly(rho, a, b);
    TwinsIgnoreQuiet(rho, a, a.children, b.children);
    GuidesAreLookedUp(a, "");
    hide SecondEmission, LookedUp, GuideFolios, Declarations, Contents;
    if forall p <- LookedUp(a) :: p in Declarations(a, "") || Fixes(rho, p) {
      forall f | f in GuideFolios(a, "") ensures rho("", f) == f {
        assert Fixes(rho, Pair("", f));
      }
    }
  }

  // ---------------------------------------------------------------- there is always such an emission

  /** The second emission, ignored elements kept. */
  function Rename(rho: Renaming, parent: Node, node: Node): Node
    decreases node, 1
  {
    if Skipped(node) then node
    else Node(node.name, NewText(rho, parent, node), RenameAll(rho, node, node.children))
  }

  function RenameAll(rho: Renaming, parent: Node, nodes: seq<Node>): (r: seq<Node>)
    ensures |r| == |nodes|
    decreases nodes, 0
  {
    if nodes == [] then [] else [Rename(rho, parent, nodes[0])] + RenameAll(rho, parent, nodes[1..])
  }

  lemma {:induction false} RenameIsTwin(rho: Renaming, parent: Node, node: Node)
    requires IgnoredAreQuiet(node)
    ensures Twin(rho, parent, node, Rename(rho, parent, node))
    decreases node, 1
  {
    if !Skipped(node) {
      RenameAllAreTwins(rho, node, node.children);
    }
  }

  lemma {:induction false} RenameAllAreTwins(rho: Renaming, parent: Node, nodes: seq<Node>)
    requires IgnoredAreQuietIn(nodes)
    ensures Twins(rho, parent, nodes, RenameAll(rho, parent, nodes))
    decreases nodes, 0
  {
    if nodes != [] {
      RenameIsTwin(rho, parent, nodes[0]);
      RenameAllAreTwins(rho, parent, nodes[1..]);
    }
  }

  function Reemitted(rho: Renaming, root: Node): Node {
    Node(root.name, root.text, RenameAll(rho, root, root.children))
  }

  /** Re-emitting any envelope under new folios yields the same contents. */
  lemma ReemissionHasTheSameContents(rho: Renaming, root: Node)
    requires !Skipped(root) && !IsFolio(root.name) && IgnoredAreQuietIn(root.children) && AllSpeak(root, "")
    requires Fits(rho, Occurring(root)) && GuidesAgree(rho, GuideFolios(root, ""))
    requires forall p <- LookedUp(root) :: p !in Declarations(root, "") ==> Fixes(rho, p)
    ensures Contents(Reemitted(rho, root)) == Contents(root)
    ensures Declarations(Reemitted(rho, root), "") == ApplyAll(rho, Declarations(root, ""))
  {
    RenameAllAreTwins(rho, root, root.children);
    ContentsSurviveRenaming(rho, root, Reemitted(rho, root));
    DeclarationsOfTheSecond(rho, root, Reemitted(rho, root));
  }

  /** Moves one folio and no other. */
  function Moving(pair: Pair, folio: string): Renaming {
    (t, f) => if t == pair.docType && f == pair.folio then folio else f
  }

  lemma MovingFits(occurs: set<Pair>, pair: Pair, folio: string)
    requires pair.folio != "" && folio != "" && Pair(pair.docType, folio) !in occurs
    ensures Fits(Moving(pair, folio), occurs)
  {
    forall p, q | p in occurs && q in occurs && Apply(Moving(pair, folio), p) == Apply(Moving(pair, folio), q) ensures p == q {
      assert Apply(Moving(pair, folio), p) == if p == pair then Pair(pair.docType, folio) else p;
      assert Apply(Moving(pair, folio), q) == if q == pair then Pair(pair.docType, folio) else q;
    }
  }

  /** A declared folio can be replaced by one that occurs nowhere in the envelope: the second
      emission declares it and has the same contents. */
  lemma NewFoliosMakeNoDifference(root: Node, pair: Pair, folio: string)
    requires !Skipped(root) && !IsFolio(root.name) && IgnoredAreQuietIn(root.children)
    requires AllSpeak(root, "") && GuideFolios(root, "") == []
    requires pair in Declarations(root, "") && pair.folio != "" && folio != ""
    requires Pair(pair.docType, folio) !in Occurring(root)
    ensures var second := Reemitted(Moving(pair, folio), root);
            && Contents(second) == Contents(root)
            && Pair(pair.docType, folio) in Declarations(second, "")
            && Pair(pair.docType, folio) !in Declarations(root, "")
  {
    var rho := Moving(pair, folio);
    MovingFits(Occurring(root), pair, folio);
    forall p | p in LookedUp(root) && p !in Declarations(root, "") ensures Fixes(rho, p) {
      assert p != pair;
    }
    ReemissionHasTheSameContents(rho, root);
    var i :| 0 <= i < |Declarations(root, "")| && Declarations(root, "")[i] == pair;
    assert ApplyAll(rho, Declarations(root, ""))[i] == Pair(pair.docType, folio);
  }

  // ---------------------------------------------------------------- what envelopes look like

  predicate Leaf(node: Node, name: string) {
    node.name == name && node.children == [] && node.text != ""
  }

  /** A document opens with a header, the header with its identification, and that with the type
      and the folio. */
  predicate OpensWithTypeAndFolio(document: Node) {
    && document.children != [] && document.children[0].name == "Encabezado"
    && document.children[0].children != [] && document.children[0].children[0].name == "IdDoc"
    && |document.children[0].children[0].children| >= 2
    && Leaf(document.children[0].children[0].children[0], "TipoDTE")
    && Leaf(document.children[0].children[0].children[1], "Folio")
  }

  /** Every document of an EnvioDTE or an EnvioBOLETA declares the folio that flattening names. */
  lemma DocumentsSpeak(document: Node, parent: string)
    requires document.name in DOCUMENTS && OpensWithTypeAndFolio(document)
    ensures SpeaksForItself(document, parent)
  {
    var header := document.children[0];
    var id := header.children[0];
    var docType, folio := id.children[0], id.children[1];
    assert Find(docType, "TipoDTE") == Some(docType.text);
    assert FindIn(id.children, "TipoDTE") == Some(docType.text);
    assert Find(id, "TipoDTE") == Some(docType.text);
    assert FindIn(header.children, "TipoDTE") == Some(docType.text);
    assert Find(header, "TipoDTE") == Some(docType.text);
    assert FindIn(document.children, "TipoDTE") == Some(docType.text);
    var owned := Some(Owned(docType.text, folio.text, true));
    assert FindOwned(id, docType, "Folio") == None;
    assert id.children[1..][0] == folio && FindOwned(id, folio, "Folio") == owned;
    assert FindOwnedIn(id, id.children[1..], "Folio") == owned;
    assert FindOwnedIn(id, id.children, "Folio") == owned;
    assert FindOwned(header, id, "Folio") == owned;
    assert FindOwnedIn(header, header.children, "Folio") == owned;
    assert FindOwned(document, header, "Folio") == owned;
    assert FindOwnedIn(document, document.children, "Folio") == owned;
    hide Find, FindIn, FindOwned, FindOwnedIn;
  }

  lemma {:induction false} OwnLeavesAreOwned(parent: Node, nodes: seq<Node>, name: string)
    requires (forall c <- nodes :: c.children == [] || Quiet(c)) && name in RELEVANT
    ensures var owned := FindOwnedIn(parent, nodes, name);
            owned.Some? ==> owned.value.leaf && owned.value.docType == TypeAt(parent)
  {
    hide TypeAt;
    if nodes != [] {
      OwnLeavesAreOwned(parent, nodes[1..], name);
      if Quiet(nodes[0]) {
        QuietOwnsNothing(parent, nodes[0], name);
      } else {
        assert FindOwnedIn(nodes[0], nodes[0].children, name) == None;
      }
    }
  }

  /** So does every line of a purchase or sales book, whose own fields are leaves. */
  lemma BookLinesSpeak(line: Node, parent: string)
    requires line.name == "Detalle" && Find(line, "TpoDoc").Some? && Find(line, "TipoDTE").None?
    requires forall c <- line.children :: c.children == [] || Quiet(c)
    ensures SpeaksForItself(line, parent)
  {
    OwnLeavesAreOwned(line, line.children, "NroDoc");
    OwnLeavesAreOwned(line, line.children, "Folio");
    hide Find, FindOwnedIn, Quiet;
  }

  /** And every line of a guide book, which has no type at all. */
  lemma GuideLinesSpeak(line: Node)
    requires line.name == "Detalle" && Find(line, "TpoDoc").None? && Find(line, "TipoDTE").None?
    requires forall c <- line.children :: c.children == [] || Quiet(c)
    ensures SpeaksForItself(line, "EnvioLibro")
  {
    OwnLeavesAreOwned(line, line.children, "Folio");
    assert TypeAt(line) == "";
    hide Find, FindOwnedIn, Quiet, TypeAt;
  }

  // ---------------------------------------------------------------- the smallest envelopes

  function Identification(folio: string): Node {
    Node("IdDoc", "", [Node("TipoDTE", "33", []), Node("Folio", folio, [])])
  }

  function Invoice(folio: string): Node {
    Node("Documento", "", [Node("Encabezado", "", [Identification(folio)])])
  }

  /** One invoice in an envelope. */
  function Envelope(folio: string): Node {
    Node("EnvioDTE", "", [Invoice(folio)])
  }

  /** A node and what is read of it: what it looks up, what it declares; no guides below. */
  ghost predicate ReadsAs(node: Node, parent: string, looked: seq<Pair>, declared: seq<Pair>) {
    && !Skipped(node) && node.children != [] && IgnoredAreQuietIn(node.children) && AllSpeak(node, parent)
    && LookedUp(node) == looked && Declarations(node, parent) == declared && GuideFolios(node, parent) == []
  }

  /** A node with one child adds what it declares itself. */
  lemma OnlyChildReads(node: Node, parent: string, child: Node, looked: seq<Pair>, declared: seq<Pair>)
    requires node.children == [child] && !Skipped(node) && SpeaksForItself(node, parent) && GuideFolio(node, parent) == []
    requires ReadsAs(child, node.name, looked, declared)
    ensures ReadsAs(node, parent, looked, AsSeq(Declared(node, parent)) + declared)
  {
    assert node.children[1..] == [];
    hide Declared, GuideFolio, SpeaksForItself;
    assert DeclarationsIn(node.children, node.name) == Declarations(child, node.name) + [];
    assert GuideFoliosIn(node.children, node.name) == GuideFolios(child, node.name) + [];
    assert AllSpeakIn([], node.name) && IgnoredAreQuietIn([]);
    assert LookedUpFirst(node, 1) == LookedUpFirst(node, 0) + LookedUpChild(node, 0);
    assert LookedUp(node) == looked;
    assert IgnoredAreQuiet(child) && IgnoredAreQuietIn(node.children);
    assert AllSpeakIn(node.children, node.name) && AllSpeak(node, parent);
    assert Declarations(node, parent) == AsSeq(Declared(node, parent)) + declared;
    assert GuideFolios(node, parent) == [];
  }

  /** Nothing is declared by a leaf that is neither a document nor a line. */
  lemma PlainLeaf(leaf: Node, parent: string)
    requires leaf.children == [] && leaf.name !in DOCUMENTS && leaf.name != "Detalle" && !Skipped(leaf)
    ensures Declarations(leaf, parent) == [] && GuideFolios(leaf, parent) == []
    ensures AllSpeak(leaf, parent) && IgnoredAreQuiet(leaf)
  {
  }

  lemma TwoLeaves(node: Node, c: Node, d: Node, parent: string)
    requires node.children == [c, d] && node.name !in DOCUMENTS && node.name != "Detalle" && !Skipped(node)
    requires Declarations(c, node.name) == [] && GuideFolios(c, node.name) == [] && AllSpeak(c, node.name) && IgnoredAreQuiet(c)
    requires Declarations(d, node.name) == [] && GuideFolios(d, node.name) == [] && AllSpeak(d, node.name) && IgnoredAreQuiet(d)
    ensures Declarations(node, parent) == [] && GuideFolios(node, parent) == []
    ensures AllSpeak(node, parent) && IgnoredAreQuiet(node)
  {
    hide Find, FindOwnedIn;
    assert [c, d][1..] == [d] && [d][1..] == [];
    assert DeclarationsIn([d], node.name) == Declarations(d, node.name) + DeclarationsIn([], node.name);
    assert DeclarationsIn([c, d], node.name) == Declarations(c, node.name) + DeclarationsIn([d], node.name);
    assert GuideFoliosIn([d], node.name) == GuideFolios(d, node.name) + GuideFoliosIn([], node.name);
    assert GuideFoliosIn([c, d], node.name) == GuideFolios(c, node.name) + GuideFoliosIn([d], node.name);
    assert AllSpeakIn([d], node.name) && IgnoredAreQuietIn([d]);
  }

  lemma IdentificationSpeaks(folio: string)
    ensures var id := Identification(folio);
            && Declarations(id, "Encabezado") == [] && GuideFolios(id, "Encabezado") == []
            && AllSpeak(id, "Encabezado") && IgnoredAreQuiet(id)
  {
    var id := Identification(folio);
    PlainLeaf(id.children[0], "IdDoc");
    PlainLeaf(id.children[1], "IdDoc");
    TwoLeaves(id, id.children[0], id.children[1], "Encabezado");
  }

  lemma IdentificationReads(folio: string)
    ensures var id := Identification(folio);
            LookedUp(id) == [Pair("33", folio)] && Find(id, "TipoDTE") == Some("33") && Find(id, "Folio") == Some(folio)
  {
    var id := Identification(folio);
    var docType, number := id.children[0], id.children[1];
    assert id.children[1..] == [number];
    assert Find(docType, "TipoDTE") == Some("33") && Find(docType, "Folio") == None && Find(number, "Folio") == Some(folio);
    assert FindIn([number], "Folio") == Some(folio);
    assert FindIn(id.children, "Folio") == Some(folio) && FindIn(id.children, "TipoDTE") == Some("33");
    assert TypeAt(id) == "33";
    hide Find, FindIn, TypeAt;
    assert LookedUpChild(id, 0) == [] && LookedUpChild(id, 1) == [Pair("33", folio)];
    assert LookedUpFirst(id, 0) == [] && LookedUpFirst(id, 1) == [] && LookedUpFirst(id, 2) == [Pair("33", folio)];
  }

  lemma IdentificationReadsAs(folio: string)
    ensures ReadsAs(Identification(folio), "Encabezado", [Pair("33", folio)], [])
  {
    IdentificationReads(folio);
    IdentificationSpeaks(folio);
    hide LookedUp, Declarations, GuideFolios, AllSpeak, Find;
  }

  lemma InvoiceDeclares(folio: string)
    requires folio != ""
    ensures Declared(Invoice(folio), "EnvioDTE") == Some(Pair("33", folio))
  {
    var invoice, id := Invoice(folio), Identification(folio);
    var header := Node("Encabezado", "", [id]);
    IdentificationReads(folio);
    assert invoice.children == [header];
    assert FindIn([id], "TipoDTE") == Find(id, "TipoDTE") && FindIn([id], "Folio") == Find(id, "Folio");
    assert Find(header, "TipoDTE") == Some("33") && Find(header, "Folio") == Some(folio);
    assert FindIn([header], "TipoDTE") == Some("33") && FindIn([header], "Folio") == Some(folio);
  }

  lemma EnvelopeReads(folio: string)
    requires folio != ""
    ensures ReadsAs(Envelope(folio), "", [Pair("33", folio)], [Pair("33", folio)])
  {
    var root, invoice, id := Envelope(folio), Invoice(folio), Identification(folio);
    var header := Node("Encabezado", "", [id]);
    var pair := Pair("33", folio);
    assert invoice.children == [header] && header.children == [id];
    IdentificationReadsAs(folio);
    InvoiceDeclares(folio);
    DocumentsSpeak(invoice, "EnvioDTE");
    assert [pair] + [] == [pair];
    hide ReadsAs, Find, FindOwnedIn, Identification, OpensWithTypeAndFolio;
    OnlyChildReads(header, "Documento", id, [pair], []);
    OnlyChildReads(invoice, "EnvioDTE", header, [pair], []);
    OnlyChildReads(root, "", invoice, [pair], [pair]);
  }

  lemma OnlyRenamed(rho: Renaming, parent: Node, child: Node)
    requires parent.children == [child]
    ensures RenameAll(rho, parent, parent.children) == [Rename(rho, parent, child)]
  {
    assert parent.children[1..] == [];
    hide Rename;
  }

  lemma IdentificationRenamed(folio: string, other: string)
    ensures var rho, header := Moving(Pair("33", folio), other), Node("Encabezado", "", [Identification(folio)]);
            Rename(rho, header, Identification(folio)) == Identification(other)
  {
    var rho, id := Moving(Pair("33", folio), other), Identification(folio);
    IdentificationReads(folio);
    assert TypeAt(id) == "33";
    hide Find, TypeAt;
    var docType, number := id.children[0], id.children[1];
    assert id.children[1..] == [number] && [number][1..] == [];
    assert Rename(rho, id, docType) == docType && Rename(rho, id, number) == Node("Folio", other, []);
    assert RenameAll(rho, id, [number]) == [Node("Folio", other, [])];
    assert RenameAll(rho, id, id.children) == Identification(other).children;
  }

  lemma EnvelopeReemitted(folio: string, other: string)
    ensures Reemitted(Moving(Pair("33", folio), other), Envelope(folio)) == Envelope(other)
  {
    var rho := Moving(Pair("33", folio), other);
    var root, invoice, id := Envelope(folio), Invoice(folio), Identification(folio);
    var header := Node("Encabezado", "", [id]);
    IdentificationRenamed(folio, other);
    hide Identification, Moving;
    OnlyRenamed(rho, header, id);
    OnlyRenamed(rho, invoice, header);
    OnlyRenamed(rho, root, invoice);
  }

  /** One invoice emitted under any folio, and again under any other, has the same contents. */
  lemma InvoicesSurvive(folio: string, other: string)
    requires folio != "" && other != "" && folio != other
    ensures Contents(Envelope(other)) == Contents(Envelope(folio))
    ensures Declarations(Envelope(other), "") != Declarations(Envelope(folio), "")
  {
    EnvelopeReads(folio);
    EnvelopeReads(other);
    EnvelopeReemitted(folio, other);
    assert !IsFolio(Envelope(folio).name);
    hide Contents, LookedUp, Declarations, AllSpeak, GuideFolios, Reemitted, Envelope;
    assert Pair("33", other) !in Occurring(Envelope(folio));
    assert [Pair("33", folio)][0] == Pair("33", folio);
    NewFoliosMakeNoDifference(Envelope(folio), Pair("33", folio), other);
    assert [Pair("33", other)][0] != [Pair("33", folio)][0];
  }

  function GuideBook(folio: string): Node {
    Node("LibroGuia", "", [Node("EnvioLibro", "", [Node("Detalle", "", [Node("Folio", folio, [])])])])
  }

  lemma OnlyChild(node: Node, child: Node, path: string, labels: Labels)
    requires node.children == [child]
    ensures Flatten(node, path, labels) == FlattenChild(node, 0, path, labels)
  {
    assert FlattenFirst(node, 1, path, labels) == FlattenFirst(node, 0, path, labels) + FlattenChild(node, 0, path, labels);
  }

  lemma OneLine(folio: string)
    ensures var leaf := Node("Folio", folio, []);
            var line := Node("Detalle", "", [leaf]);
            && Find(line, "TpoDoc") == None && Find(line, "TipoDTE") == None && Find(line, "Folio") == Some(folio)
  {
    var leaf := Node("Folio", folio, []);
    assert FindIn([leaf], "TpoDoc") == FindIn([leaf][1..], "TpoDoc") && FindIn([leaf], "TipoDTE") == FindIn([leaf][1..], "TipoDTE");
    assert Find(leaf, "Folio") == Some(folio);
    assert FindIn([leaf], "Folio") == Find([leaf][0], "Folio");
  }

  lemma GuideBookDeclares(folio: string)
    ensures Declarations(GuideBook(folio), "") == [Pair("52", folio)]
  {
    var leaf := Node("Folio", folio, []);
    var line := Node("Detalle", "", [leaf]);
    var book := Node("EnvioLibro", "", [line]);
    OneLine(folio);
    assert Declarations(leaf, "Detalle") == [];
    assert DeclarationsIn([leaf], "Detalle") == [];
    assert Declared(line, "EnvioLibro") == Some(Pair("52", folio));
    assert Declarations(line, "EnvioLibro") == [Pair("52", folio)];
    assert DeclarationsIn([line], "EnvioLibro") == [Pair("52", folio)];
    assert Declarations(book, "LibroGuia") == [Pair("52", folio)];
    assert DeclarationsIn([book], "LibroGuia") == [Pair("52", folio)];
  }

  lemma GuideBookContents(folio: string)
    ensures |Contents(GuideBook(folio))| == 1 && Contents(GuideBook(folio))[0].text == folio
  {
    var leaf := Node("Folio", folio, []);
    var line := Node("Detalle", "", [leaf]);
    var book := Node("EnvioLibro", "", [line]);
    var root := GuideBook(folio);
    var labels := LabelsOf(root);
    GuideBookDeclares(folio);
    LabelledAreDeclared([Pair("52", folio)]);
    OneLine(folio);
    hide Find, LabelAll, Declarations, PathOf;
    var p1 := PathOf(root, 0, "");
    var p2 := PathOf(book, 0, p1);
    OnlyChild(root, book, "", labels);
    OnlyChild(book, line, p1, labels);
    OnlyChild(line, leaf, p2, labels);
    assert FlattenChild(line, 0, p2, labels) == [Entry(PathOf(line, 0, p2), folio)];
  }

  /** The smallest guide book: a new folio shows as a difference. */
  lemma GuideBooksDoNotSurvive(f: string, g: string)
    requires f != g
    ensures Contents(GuideBook(f)) != Contents(GuideBook(g))
  {
    GuideBookContents(f);
    GuideBookContents(g);
  }
}
