/** The checksum of a bookmark file: the MD5 digest of all nodes, a parent before its children. */
module Checksums {
  import opened Basics
  import opened TreeWalk
  import opened BuildMaps
  import Codecs
  import Md5

  type Chunks = seq<seq<Byte>>

  /** How texts become bytes: the UTF-16 conversion can fail. */
  datatype Texts = Texts(id: nat -> seq<Byte>, utf16: string -> Option<seq<Byte>>, utf8: string -> seq<Byte>)

  /** What one node adds to the digest. */
  function NodeChunks(x: Texts, node: Node): (r: Option<Chunks>)
  {
    if node.id.None? || node.name.None? then None
    else match x.utf16(node.name.value)
      case None => None
      case Some(name) =>
        Some([x.id(node.id.value), name] +
             if node.Folder? then [x.utf8("folder")] else [x.utf8("url"), x.utf8(node.url)])
  }

  /** What a node adds, as one text: id, name, the kind of node, and the URL of a bookmark. */
  lemma NodeText(x: Texts, node: Node)
    ensures NodeChunks(x, node).None? <==> node.id.None? || node.name.None? || x.utf16(node.name.value).None?
    ensures NodeChunks(x, node).Some? ==>
      Md5.Concat(NodeChunks(x, node).value) ==
        x.id(node.id.value) + x.utf16(node.name.value).value
        + (if node.Folder? then x.utf8("folder") else x.utf8("url") + x.utf8(node.url))
  {
    if NodeChunks(x, node).Some? {
      ConcatFew(NodeChunks(x, node).value);
    }
  }

  lemma ConcatFew(c: Chunks)
    requires 3 <= |c| <= 4
    ensures Md5.Concat(c) == c[0] + c[1] + if |c| == 3 then c[2] else c[2] + c[3]
  {
    if |c| == 3 {
      ConcatThree(c);
    } else {
      ConcatThree(c[..3]);
      Assoc(c[0] + c[1], c[2], c[3]);
    }
  }

  lemma ConcatThree(c: Chunks)
    requires |c| == 3
    ensures Md5.Concat(c) == c[0] + c[1] + c[2]
  {
    assert c[..2][..1] == c[..1] && c[..1][..0] == [];
    assert Md5.Concat(c[..1]) == [] + c[0];
    assert Md5.Concat(c[..2]) == c[0] + c[1];
  }

  /** `chksum_iter_cb`. */
  function ChecksumVisit(x: Texts, s: Chunks, node: Node): (r: Option<(Chunks, ())>)
  {
    match NodeChunks(x, node) case None => None case Some(c) => Some((s + c, ()))
  }

  /** The flat serialization: what every node adds, in the order of the list. */
  function Serial(x: Texts, list: seq<Node>): (r: Option<Chunks>)
  {
    if list == [] then Some([])
    else match (NodeChunks(x, list[0]), Serial(x, list[1..]))
      case (Some(c), Some(rest)) => Some(c + rest)
      case _ => None
  }

  function Append(a: Option<Chunks>, b: Option<Chunks>): (r: Option<Chunks>)
  {
    match (a, b) case (Some(c), Some(d)) => Some(c + d) case _ => None
  }

  lemma AppendAssoc(a: Option<Chunks>, b: Option<Chunks>, c: Option<Chunks>)
    ensures Append(Append(a, b), c) == Append(a, Append(b, c))
  {
    if a.Some? && b.Some? && c.Some? {
      assert a.value + b.value + c.value == a.value + (b.value + c.value);
    }
  }

  lemma {:induction false} SerialConcat(x: Texts, a: seq<Node>, b: seq<Node>)
    ensures Serial(x, a + b) == Append(Serial(x, a), Serial(x, b))
  {
    if a == [] {
      assert a + b == b;
      if Serial(x, b).Some? {
        assert [] + Serial(x, b).value == Serial(x, b).value;
      }
    } else {
      SerialConcat(x, a[1..], b);
      assert (a + b)[0] == a[0] && (a + b)[1..] == a[1..] + b;
      AppendAssoc(NodeChunks(x, a[0]), Serial(x, a[1..]), Serial(x, b));
    }
  }

  function Visitor(x: Texts): (cb: TreeWalk.Visitor<Chunks, ()>)
  {
    (s, node, _) => ChecksumVisit(x, s, node)
  }

  /** The list a walk of `node` visits. */
  function Visited(node: Node): (r: seq<Node>)
  {
    [node] + if node.Folder? then Preorder(node.children) else []
  }

  lemma SerialOne(x: Texts, node: Node)
    ensures Serial(x, [node]) == NodeChunks(x, node)
  {
    assert [node][1..] == [];
    if NodeChunks(x, node).Some? {
      assert NodeChunks(x, node).value + [] == NodeChunks(x, node).value;
    }
  }

  /** Walking a node adds the serialization of everything it visits. */
  lemma {:induction false} WalkSerial(x: Texts, s: Chunks, node: Node)
    ensures Walk(Visitor(x), s, node, ()) == Append(Some(s), Serial(x, Visited(node)))
    decreases node, 0
  {
    SerialOne(x, node);
    if node.Folder? {
      SerialConcat(x, [node], Preorder(node.children));
      match NodeChunks(x, node)
      case None =>
      case Some(c) =>
        WalkAllSerial(x, s + c, node.children);
        AppendAssoc(Some(s), Some(c), Serial(x, Preorder(node.children)));
    } else {
      assert [node] + [] == [node];
    }
  }

  lemma {:induction false} WalkAllSerial(x: Texts, s: Chunks, nodes: seq<Node>)
    ensures WalkAll(Visitor(x), s, nodes, ()) == Append(Some(s), Serial(x, Preorder(nodes)))
    decreases nodes, 1
  {
    if nodes == [] {
      assert s + [] == s;
    } else {
      var first, rest := Visited(nodes[0]), Preorder(nodes[1..]);
      assert Preorder(nodes) == first + rest;
      SerialConcat(x, first, rest);
      WalkSerial(x, s, nodes[0]);
      match Serial(x, first)
      case None =>
      case Some(c) =>
        WalkAllSerial(x, s + c, nodes[1..]);
        AppendAssoc(Some(s), Some(c), Serial(x, rest));
    }
  }

  /** The bytes of a file that are digested: none when it is nested too deep or a name has no UTF-16 form. */
  function ChunksOf(x: Texts, roots: seq<Node>): (r: Option<Chunks>)
  {
    if roots == [] || DepthAll(roots) >= MAX_NODE_ITER_DEPTH then None else Serial(x, Preorder(roots))
  }

  function HexDigest(chunks: Chunks): (s: string)
  {
    Codecs.Base16(Md5.Digest(Md5.Concat(chunks)))
  }

  /** The checksum of a file, when it has one. */
  function ChecksumOf(x: Texts, roots: seq<Node>): (r: Option<string>)
  {
    match ChunksOf(x, roots) case None => None case Some(chunks) => Some(HexDigest(chunks))
  }

  method CollectChunks(x: Texts, roots: seq<Node>) returns (r: Option<Chunks>)
    ensures r == ChunksOf(x, roots)
  {
    r := IterRoots(roots, Visitor(x), [], ());
    WalkAllSerial(x, [], roots);
    match Serial(x, Preorder(roots)) {
      case None =>
      case Some(c) => assert [] + c == c;
    }
  }

  method DigestChunks(chunks: Chunks) returns (s: string)
    ensures s == HexDigest(chunks)
  {
    var digest := Md5.DigestOfChunks(chunks);
    s := Codecs.Base16Encode(digest);
  }

  /** `chksum_root`. */
  method ChecksumRoots(x: Texts, roots: seq<Node>) returns (r: Option<string>)
    ensures r == ChecksumOf(x, roots)
  {
    var chunks := CollectChunks(x, roots);
    if chunks.None? {
      return None;
    }
    var s := DigestChunks(chunks.value);
    return Some(s);
  }
}
