/** The listed tree. In the serialized record a node is a directory exactly
    when it carries a `contents` list (an empty one included); here that
    discriminator is the constructor. */
module Tree {

  datatype Node =
    | File(name: string, size: int, timeModified: int, permissions: string)
    | Dir(name: string, size: int, timeModified: int, permissions: string, contents: seq<Node>)

  /** `is_directory`: a node is a directory iff it has a `contents` list. */
  predicate IsDirectory(n: Node) {
    n.Dir?
  }

  /** Being a directory is having a `contents` list: the node is the same
      record with some list of children attached. */
  lemma DirectoryHasContents(n: Node)
    ensures IsDirectory(n) <==>
      exists cs :: n == Dir(n.name, n.size, n.timeModified, n.permissions, cs)
  {
    if n.Dir? {
      assert n == Dir(n.name, n.size, n.timeModified, n.permissions, n.contents);
    }
  }

  /** Largest element of a sequence of naturals (0 for the empty one). */
  function MaxOf(s: seq<nat>): (m: nat)
    ensures forall i :: 0 <= i < |s| ==> s[i] <= m
  {
    if s == [] then 0
    else var rest := MaxOf(s[1..]); if s[0] < rest then rest else s[0]
  }

  /** The depth of the tree below `n`; every child is strictly lower. */
  function Height(n: Node): (h: nat)
    ensures n.Dir? ==> forall c :: c in n.contents ==> Height(c) < h
  {
    match n
    case File(_, _, _, _) => 0
    case Dir(_, _, _, _, cs) =>
      var hs := seq(|cs|, i requires 0 <= i < |cs| => Height(cs[i]));
      assert forall i :: 0 <= i < |cs| ==> hs[i] == Height(cs[i]);
      1 + MaxOf(hs)
  }

  /** The test's sample entries: an empty `contents` still makes a directory,
      and an entry without one is a file. */
  lemma DirectoryDiscriminator()
    ensures IsDirectory(Dir("", 0, 0, "", []))
    ensures !IsDirectory(File("file.txt", 0, 0, ""))
  {
  }
}
