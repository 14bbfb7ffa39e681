/** Values shared by every part of the phylogeographic correlation engine:
    trees seen through their leaves, distances and confidences, the
    dictionaries of trees the pipeline passes around, and the run parameters. */
module Common {

  datatype Option<T> = None | Some(value: T)

  function Abs(x: real): real
  {
    if x < 0.0 then -x else x
  }

  /** A phylogenetic tree seen from outside.
      `leaves` are the names of its terminals in the order the tree lists them,
      `distance` is the patristic distance between two named leaves (the tree's
      own distance query), and `confidences` are the confidence values of its
      nonterminal nodes in the order the tree lists them, the root first. */
  datatype Tree = Tree(leaves: seq<string>, distance: (string, string) -> real, confidences: seq<real>)

  /** A dictionary of trees keyed by name; `keys` is its iteration (insertion) order. */
  datatype TreeDict = TreeDict(keys: seq<string>, trees: map<string, Tree>)
  {
    /** Every key is listed exactly once and every listed key has a tree (so
        the listed keys are exactly the dictionary's keys). */
    ghost predicate Valid()
    {
      && |keys| == |trees|
      && (forall i :: 0 <= i < |keys| ==> keys[i] in trees)
      && (forall a, b :: 0 <= a < b < |keys| ==> keys[a] != keys[b])
    }
  }

  /** The run parameters the result filter reads. */
  datatype Params = Params(referenceGene: string, bootstrapThreshold: real, lsThreshold: real)
}
