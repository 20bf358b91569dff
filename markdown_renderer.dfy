/**
 * The self-contained logic of the markdown renderer component: footnote
 * numbering by first occurrence (reset whenever new data arrives), the
 * table-of-contents anchors, the top-level definition lookup and the node-list
 * filters the view template uses. Parsing is done by an external library; its
 * output is taken as the `root` children list.
 */
module MarkdownRenderer {
  import opened Wrappers

  /** A syntax-tree node, reduced to the fields the helpers read. */
  datatype Node = Node(kind: string, identifier: Option<string>, url: Option<string>)

  const DefinitionKind: string := "definition"

  /** `toc(n)`: the anchor id `ref${n}` of a heading. */
  function Toc(n: string): (r: string)
    ensures |r| == |n| + 3
    ensures r[..3] == "ref" && r[3..] == n
  {
    "ref" + n
  }

  /** Distinct headings get distinct anchors. */
  lemma TocInjective(a: string, b: string)
    requires Toc(a) == Toc(b)
    ensures a == b
  {
  }

  /** The anchor `navigateToc` emits for a heading: `#` followed by its `toc` id. */
  function TocAnchor(id: string): (r: string)
    ensures |r| == |id| + 4
    ensures r[0] == '#' && r[1..] == Toc(id)
  {
    "#" + Toc(id)
  }

  predicate IsDefinitionOf(node: Node, id: string) {
    node.kind == DefinitionKind && node.identifier == Some(id)
  }

  /** `elements.find(...)` as an index: the first definition of `id`, or `|nodes|` when none. */
  function FindDefinition(nodes: seq<Node>, id: string): (i: nat)
    ensures i <= |nodes|
    ensures forall j :: 0 <= j < i ==> !IsDefinitionOf(nodes[j], id)
    ensures i < |nodes| ==> IsDefinitionOf(nodes[i], id)
  {
    if nodes == [] then 0
    else if IsDefinitionOf(nodes[0], id) then 0
    else 1 + FindDefinition(nodes[1..], id)
  }

  /** `notes.findIndex(value => value === id)`: the first index of `x`, or -1. */
  function FindIndex(s: seq<string>, x: string): (n: int)
    ensures -1 <= n < |s|
    ensures n == -1 <==> x !in s
    ensures n >= 0 ==> s[n] == x
    ensures forall j :: 0 <= j < |s| && (n < 0 || j < n) ==> s[j] != x
  {
    if s == [] then -1
    else if s[0] == x then 0
    else
      var k := FindIndex(s[1..], x);
      if k < 0 then -1 else k + 1
  }

  /** The notes after one `footnote(id)` call: unchanged for a known id, else the id appended. */
  function AddNote(notes: seq<string>, id: string): (r: seq<string>)
    ensures id in r
    ensures |r| <= |notes| + 1
    ensures notes <= r
  {
    if id in notes then notes else notes + [id]
  }

  /** The notes after footnote calls with `ids` from empty notes. */
  function Notes(ids: seq<string>): seq<string>
    decreases |ids|
  {
    if ids == [] then [] else AddNote(Notes(ids[..|ids| - 1]), ids[|ids| - 1])
  }

  ghost predicate Distinct(s: seq<string>) {
    forall i, j :: 0 <= i < j < |s| ==> s[i] != s[j]
  }

  /** The notes hold each id asked for exactly once. */
  lemma {:induction false} NotesDistinct(ids: seq<string>)
    ensures Distinct(Notes(ids))
    ensures forall x :: x in Notes(ids) <==> x in ids
    decreases |ids|
  {
    if ids != [] {
      var init := ids[..|ids| - 1];
      NotesDistinct(init);
      assert ids == init + [ids[|ids| - 1]];
    }
  }

  /** Later calls only append: the numbers handed out earlier never change. */
  lemma {:induction false} NotesPrefix(a: seq<string>, b: seq<string>)
    ensures Notes(a) <= Notes(a + b)
    decreases |b|
  {
    if b == [] {
      assert a + b == a;
    } else {
      var init := b[..|b| - 1];
      NotesPrefix(a, init);
      assert (a + b)[..|a + b| - 1] == a + init;
    }
  }

  /**
   * Numbering by first occurrence: the id first asked for at call `p` gets
   * the number one more than the count of distinct ids asked for before it.
   */
  lemma {:induction false} FootnoteNumber(ids: seq<string>, p: nat)
    requires p < |ids| && ids[p] !in ids[..p]
    ensures FindIndex(Notes(ids), ids[p]) == |Notes(ids[..p])|
  {
    var before := Notes(ids[..p]);
    NotesDistinct(ids[..p]);
    assert ids[..p + 1][..p] == ids[..p];
    assert Notes(ids[..p + 1]) == before + [ids[p]];
    NotesPrefix(ids[..p + 1], ids[p + 1..]);
    assert ids[..p + 1] + ids[p + 1..] == ids;
    var all := Notes(ids);
    assert all[..|before| + 1] == before + [ids[p]];
    assert all[..|before|] == before;
    assert all[|before|] == ids[p];
    assert forall j :: 0 <= j < |before| ==> all[j] == before[j];
  }

  /** `nodes.filter(value => value.type === kind)`. */
  function Filter(nodes: seq<Node>, kind: string): (r: seq<Node>)
    ensures |r| <= |nodes|
    ensures forall x :: x in r <==> x in nodes && x.kind == kind
  {
    if nodes == [] then []
    else if nodes[0].kind == kind then [nodes[0]] + Filter(nodes[1..], kind)
    else Filter(nodes[1..], kind)
  }

  /** Filtering keeps the original order: it distributes over concatenation. */
  lemma {:induction false} FilterAppend(a: seq<Node>, b: seq<Node>, kind: string)
    ensures Filter(a + b, kind) == Filter(a, kind) + Filter(b, kind)
    decreases |a|
  {
    if a == [] {
      assert a + b == b;
    } else {
      var ab := a + b;
      assert ab[0] == a[0] && ab[1..] == a[1..] + b;
      FilterAppend(a[1..], b, kind);
      var head := if a[0].kind == kind then [a[0]] else [];
      assert Filter(ab, kind) == head + Filter(a[1..] + b, kind);
      assert Filter(a, kind) == head + Filter(a[1..], kind);
      assert head + (Filter(a[1..], kind) + Filter(b, kind)) == (head + Filter(a[1..], kind)) + Filter(b, kind);
    }
  }

  /** `nodes.some(value => value.type === kind)`. */
  function Any(nodes: seq<Node>, kind: string): (r: bool)
    ensures r <==> exists i :: 0 <= i < |nodes| && nodes[i].kind == kind
  {
    if nodes == [] then false
    else nodes[0].kind == kind || Any(nodes[1..], kind)
  }

  /** `filterNodes`: undefined for an absent list, else exactly the nodes of that type, in order. */
  function FilterNodes(nodes: Option<seq<Node>>, kind: string): (r: Option<seq<Node>>)
    ensures r.None? <==> nodes.None?
    ensures r.Some? ==> r.value == Filter(nodes.value, kind)
    ensures r.Some? ==> forall x :: x in r.value <==> x in nodes.value && x.kind == kind
  {
    if nodes.None? then None else Some(Filter(nodes.value, kind))
  }

  /** `someNodes`: undefined for an absent list, else whether `filterNodes` finds anything. */
  function SomeNodes(nodes: Option<seq<Node>>, kind: string): (r: Option<bool>)
    ensures r.None? <==> nodes.None?
    ensures r.Some? ==> (r.value <==> FilterNodes(nodes, kind).value != [])
  {
    if nodes.None? then None
    else
      var found := Any(nodes.value, kind);
      var filtered := Filter(nodes.value, kind);
      assert found <==> filtered != [] by {
        if found {
          var i :| 0 <= i < |nodes.value| && nodes.value[i].kind == kind;
          assert nodes.value[i] in filtered;
        }
        if filtered != [] {
          assert filtered[0] in nodes.value;
          var i :| 0 <= i < |nodes.value| && nodes.value[i] == filtered[0];
        }
      }
      Some(found)
  }

  class MarkdownRendererComponent {
    /** The footnote ids numbered so far, in numbering order. */
    var notes: seq<string>
    /** The footnote ids asked for since new data last arrived. */
    ghost var calls: seq<string>
    /** The top-level children of the parsed tree, or None while unset. */
    var root: Option<seq<Node>>
    /** The latest markdown text pushed into the parsing stream. */
    var latest: string

    ghost predicate Valid()
      reads this
    {
      notes == Notes(calls)
    }

    constructor ()
      ensures Valid() && notes == [] && calls == [] && root.None? && latest == ""
    {
      notes := [];
      calls := [];
      root := None;
      latest := "";
    }

    /** The `data` input setter: empties the notes and pushes the new text in. */
    method ParseData(data: string)
      modifies this`notes, this`calls, this`latest
      ensures Valid()
      ensures notes == [] && calls == [] && latest == data
    {
      notes := [];
      calls := [];
      latest := data;
    }

    /** `footnote(id)`: the existing number of a known id, else the id is appended and gets the next number. */
    method Footnote(id: string) returns (n: nat)
      requires Valid()
      modifies this`notes, this`calls
      ensures Valid()
      ensures calls == old(calls) + [id]
      ensures notes == AddNote(old(notes), id)
      ensures 1 <= n <= |notes| && notes[n - 1] == id && id !in notes[..n - 1]
      ensures id in old(notes) ==> notes == old(notes)
      ensures id !in old(notes) ==> n == |old(notes)| + 1
    {
      var k := FindIndex(notes, id);
      if k < 0 {
        notes := notes + [id];
        n := |notes|;
        assert notes[..n - 1] == old(notes);
      } else {
        n := k + 1;
      }
      calls := calls + [id];
      assert calls[..|calls| - 1] == old(calls);
    }

    /**
     * `definition(id)`: the `url` of the first top-level definition node whose
     * identifier is `id`; None when `root` is unset or there is none.
     */
    function Definition(id: string): (r: Option<string>)
      reads this
      ensures root.None? ==> r.None?
      ensures root.Some? && (forall i :: 0 <= i < |root.value| ==> !IsDefinitionOf(root.value[i], id)) ==> r.None?
      ensures root.Some? ==> forall i ::
        (0 <= i < |root.value| && IsDefinitionOf(root.value[i], id) &&
         forall j :: 0 <= j < i ==> !IsDefinitionOf(root.value[j], id)) ==> r == root.value[i].url
    {
      var elements := if root.Some? then root.value else [];
      var i := FindDefinition(elements, id);
      if i < |elements| then elements[i].url else None
    }
  }
}
