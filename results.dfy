/** Selecting the (gene, climatic variable) pairs worth reporting and building
    their result rows. The two module-level accumulators of the source, the
    list of kept bootstrap averages and the list of result rows, are the
    fields of `ResultState`. */
module Results {
  import opened Common
  import opened LeastSquares
  import opened Bootstrap

  /** One result row: the reference gene label, the climatic tree's name, the
      matched species, the gene key (written under "Position in ASM"), the
      bootstrap mean and the least-squares distance. */
  datatype Record = Record(gene: string, climaticTree: string, species: string, position: string,
                           bootstrapMean: real, leastSquare: real)

  /** Every tree of the dictionary has a root and at least one other nonterminal. */
  ghost predicate CanAverage(d: TreeDict)
  {
    forall k :: k in d.trees ==> |d.trees[k].confidences| >= 2
  }

  /** The least-squares distance of a genetic tree and a climatic tree. */
  function LeastSquareOf(genetic: Tree, climatic: Tree): real
  {
    SumGaps(genetic, climatic, VisitedPairs(genetic.leaves))
  }

  /** Among the first n keys, in dictionary order, those whose tree's average
      confidence reaches the threshold. */
  function KeptGenes(d: TreeDict, n: nat, threshold: real): seq<string>
    requires d.Valid() && CanAverage(d) && n <= |d.keys|
  {
    if n == 0 then []
    else
      var key := d.keys[n - 1];
      KeptGenes(d, n - 1, threshold) + if Mean(d.trees[key].confidences) >= threshold then [key] else []
  }

  /** The average confidences of the kept keys, in the same order. */
  function KeptAverages(d: TreeDict, n: nat, threshold: real): seq<real>
    requires d.Valid() && CanAverage(d) && n <= |d.keys|
  {
    if n == 0 then []
    else
      var average := Mean(d.trees[d.keys[n - 1]].confidences);
      KeptAverages(d, n - 1, threshold) + if average >= threshold then [average] else []
  }

  /** Some row of the climatic source starts with this name. */
  predicate HasRow(rows: seq<seq<string>>, name: string)
  {
    exists k :: 0 <= k < |rows| && |rows[k]| > 0 && rows[k][0] == name
  }

  /** What the row lookup yields for a qualifying pair: only the first leaf
      can match, because every later leaf finds the rows already consumed. */
  function RecordFor(rows: seq<seq<string>>, leaves: seq<string>, ls: real, climaticName: string,
                     gene: string, bootstrap: real, p: Params): Option<Record>
  {
    if |leaves| > 0 && HasRow(rows, leaves[0])
    then Some(Record(p.referenceGene, climaticName, leaves[0], gene, bootstrap, ls))
    else None
  }

  /** The rows appended for one kept gene while scanning the first c climatic
      trees in dictionary order. */
  function Pairings(genetic: Tree, gene: string, bootstrap: real, climatic: TreeDict, c: nat,
                    rows: seq<seq<string>>, p: Params): seq<Option<Record>>
    requires climatic.Valid() && c <= |climatic.keys|
  {
    if c == 0 then []
    else
      var previous := Pairings(genetic, gene, bootstrap, climatic, c - 1, rows, p);
      var name := climatic.keys[c - 1];
      var ls := LeastSquareOf(genetic, climatic.trees[name]);
      if ls <= p.lsThreshold then previous + [RecordFor(rows, genetic.leaves, ls, name, gene, bootstrap, p)]
      else previous
  }

  /** The rows appended for the first n genes of `genes`, gene g reported with
      bootstrap value boots[g]. */
  function AllRecords(genetic: TreeDict, genes: seq<string>, boots: seq<real>, climatic: TreeDict,
                      rows: seq<seq<string>>, p: Params, n: nat): seq<Option<Record>>
    requires climatic.Valid() && n <= |genes| <= |boots|
    requires forall g :: 0 <= g < |genes| ==> genes[g] in genetic.trees
  {
    if n == 0 then []
    else
      AllRecords(genetic, genes, boots, climatic, rows, p, n - 1) +
      Pairings(genetic.trees[genes[n - 1]], genes[n - 1], boots[n - 1], climatic, |climatic.keys|, rows, p)
  }

  /** The names of the climatic trees, in dictionary order. */
  method CreateClimaticList(climaticTrees: TreeDict) returns (climaticList: seq<string>)
    ensures climaticList == climaticTrees.keys
  {
    climaticList := [];
    var k := 0;
    while k < |climaticTrees.keys|
      invariant 0 <= k <= |climaticTrees.keys|
      invariant climaticList == climaticTrees.keys[..k]
    {
      climaticList := climaticList + [climaticTrees.keys[k]];
      k := k + 1;
    }
  }

  class ResultState {
    /** The average confidences of the kept genes, the oldest first. */
    var bootstrapList: seq<real>
    /** The result rows gathered so far; None where no row matched. */
    var data: seq<Option<Record>>

    constructor ()
      ensures bootstrapList == [] && data == []
    {
      bootstrapList := [];
      data := [];
    }

    /** Keeps, in dictionary order, the genes whose average confidence is at
        least the threshold, and appends each kept average to bootstrapList. */
    method CreateGeneticList(geneticTrees: TreeDict, p: Params) returns (geneticList: seq<string>)
      requires geneticTrees.Valid() && CanAverage(geneticTrees)
      modifies this
      ensures geneticList == KeptGenes(geneticTrees, |geneticTrees.keys|, p.bootstrapThreshold)
      ensures bootstrapList == old(bootstrapList) + KeptAverages(geneticTrees, |geneticTrees.keys|, p.bootstrapThreshold)
      ensures data == old(data)
    {
      geneticList := [];
      var n := 0;
      while n < |geneticTrees.keys|
        invariant 0 <= n <= |geneticTrees.keys|
        invariant geneticList == KeptGenes(geneticTrees, n, p.bootstrapThreshold)
        invariant bootstrapList == old(bootstrapList) + KeptAverages(geneticTrees, n, p.bootstrapThreshold)
        invariant data == old(data)
      {
        var key := geneticTrees.keys[n];
        var bootstrapAverage := AverageBootstrap(geneticTrees.trees[key].confidences);
        if bootstrapAverage >= p.bootstrapThreshold {
          bootstrapList := bootstrapList + [bootstrapAverage];
          geneticList := geneticList + [key];
        }
        n := n + 1;
      }
    }

    /** Looks the leaves up in the climatic source through one reader shared by
        all leaves, and builds the result row from the first match. */
    method GetData(rows: seq<seq<string>>, leavesName: seq<string>, ls: real, index: nat,
                   climaticList: seq<string>, geneticList: seq<string>, p: Params) returns (r: Option<Record>)
      requires forall k :: 0 <= k < |rows| ==> |rows[k]| > 0
      requires index < |climaticList| && |geneticList| > 0 && |bootstrapList| > 0
      ensures r.Some? <==> |leavesName| > 0 && HasRow(rows, leavesName[0])
      ensures r.Some? ==>
        r.value == Record(p.referenceGene, climaticList[index], leavesName[0], geneticList[0], bootstrapList[0], ls)
    {
      var cursor := 0;  // the reader's position in the rows
      var l := 0;
      while l < |leavesName|
        invariant 0 <= l <= |leavesName| && 0 <= cursor <= |rows|
        invariant l == 0 ==> cursor == 0
        invariant l > 0 ==> cursor == |rows| && !HasRow(rows, leavesName[0])
      {
        while cursor < |rows|
          invariant 0 <= cursor <= |rows|
          invariant l > 0 ==> cursor == |rows|
          invariant l == 0 ==> forall k :: 0 <= k < cursor ==> rows[k][0] != leavesName[0]
        {
          var row := rows[cursor];
          cursor := cursor + 1;
          if row[0] == leavesName[l] {
            return Some(Record(p.referenceGene, climaticList[index], leavesName[l], geneticList[0], bootstrapList[0], ls));
          }
        }
        l := l + 1;
      }
      return None;
    }

    /** Compares every kept genetic tree with every climatic tree and appends a
        row for each pair whose least-squares distance is within the threshold;
        the kept genes and their averages are consumed together. */
    method FilterResults(climaticTrees: TreeDict, geneticTrees: TreeDict, rows: seq<seq<string>>, p: Params)
      requires climaticTrees.Valid() && geneticTrees.Valid() && CanAverage(geneticTrees)
      requires forall k :: 0 <= k < |rows| ==> |rows[k]| > 0
      modifies this
      ensures KeptGenesInTrees(geneticTrees, p.bootstrapThreshold)
      ensures var kept := KeptGenes(geneticTrees, |geneticTrees.keys|, p.bootstrapThreshold);
              var boots := old(bootstrapList) + KeptAverages(geneticTrees, |geneticTrees.keys|, p.bootstrapThreshold);
              && |kept| <= |boots|
              && data == old(data) + AllRecords(geneticTrees, kept, boots, climaticTrees, rows, p, |kept|)
              && bootstrapList == boots[|kept|..]
    {
      KeptShape(geneticTrees, |geneticTrees.keys|, p.bootstrapThreshold);
      var geneticList := CreateGeneticList(geneticTrees, p);
      var climaticList := CreateClimaticList(climaticTrees);
      ghost var kept, boots := geneticList, bootstrapList;
      ghost var done := 0;
      while |geneticList| > 0
        invariant 0 <= done <= |kept| <= |boots|
        invariant geneticList == kept[done..] && bootstrapList == boots[done..]
        invariant data == old(data) + AllRecords(geneticTrees, kept, boots, climaticTrees, rows, p, done)
        decreases |geneticList|
      {
        var genetic := geneticTrees.trees[geneticList[0]];
        ghost var previous := AllRecords(geneticTrees, kept, boots, climaticTrees, rows, p, done);
        CompareWithClimatic(genetic, climaticTrees, climaticList, geneticList, rows, p);
        AppendAssoc(old(data), previous,
          Pairings(genetic, kept[done], boots[done], climaticTrees, |climaticTrees.keys|, rows, p));
        geneticList := geneticList[1..];
        bootstrapList := bootstrapList[1..];
        done := done + 1;
      }
      assert done == |kept|;
    }

    /** One round of the comparison loop: the current genetic tree against
        every climatic tree in dictionary order, appending the looked-up row of
        each pair within the least-squares threshold. */
    method CompareWithClimatic(genetic: Tree, climaticTrees: TreeDict, climaticList: seq<string>,
                               geneticList: seq<string>, rows: seq<seq<string>>, p: Params)
      requires climaticTrees.Valid() && climaticList == climaticTrees.keys
      requires |geneticList| > 0 && |bootstrapList| > 0
      requires forall k :: 0 <= k < |rows| ==> |rows[k]| > 0
      modifies this
      ensures bootstrapList == old(bootstrapList)
      ensures data == old(data) +
        Pairings(genetic, geneticList[0], bootstrapList[0], climaticTrees, |climaticList|, rows, p)
    {
      var leavesName := genetic.leaves;
      var i := 0;
      while i < |climaticList|
        invariant 0 <= i <= |climaticList|
        invariant bootstrapList == old(bootstrapList)
        invariant data == old(data) + Pairings(genetic, geneticList[0], bootstrapList[0], climaticTrees, i, rows, p)
      {
        var ls := LeastSquare(genetic, climaticTrees.trees[climaticList[i]]);
        ghost var pairs := Pairings(genetic, geneticList[0], bootstrapList[0], climaticTrees, i, rows, p);
        if ls <= p.lsThreshold {
          var record := GetData(rows, leavesName, ls, i, climaticList, geneticList, p);
          assert record == RecordFor(rows, leavesName, ls, climaticList[i], geneticList[0], bootstrapList[0], p);
          AppendAssoc(old(data), pairs, [record]);
          data := data + [record];
        }
        i := i + 1;
      }
    }
  }

  lemma AppendAssoc<T>(a: seq<T>, b: seq<T>, c: seq<T>)
    ensures (a + b) + c == a + (b + c)
  {
  }

  /** Every kept gene names a tree of the dictionary. */
  ghost predicate KeptGenesInTrees(d: TreeDict, threshold: real)
    requires d.Valid() && CanAverage(d)
  {
    forall g :: 0 <= g < |KeptGenes(d, |d.keys|, threshold)| ==> KeptGenes(d, |d.keys|, threshold)[g] in d.trees
  }

  /** As many averages as kept genes, and every kept gene names a tree. */
  lemma {:induction false} KeptShape(d: TreeDict, n: nat, threshold: real)
    requires d.Valid() && CanAverage(d) && n <= |d.keys|
    ensures |KeptGenes(d, n, threshold)| == |KeptAverages(d, n, threshold)|
    ensures forall g :: 0 <= g < |KeptGenes(d, n, threshold)| ==> KeptGenes(d, n, threshold)[g] in d.trees
  {
    if n > 0 {
      KeptShape(d, n - 1, threshold);
    }
  }

  /** The kept genes and their averages stay in lockstep: the m-th average is
      the m-th kept gene's own. */
  lemma {:induction false} KeptAligned(d: TreeDict, n: nat, threshold: real)
    requires d.Valid() && CanAverage(d) && n <= |d.keys|
    ensures |KeptGenes(d, n, threshold)| == |KeptAverages(d, n, threshold)|
    ensures forall m :: 0 <= m < |KeptGenes(d, n, threshold)| ==>
      KeptGenes(d, n, threshold)[m] in d.trees &&
      KeptAverages(d, n, threshold)[m] == Mean(d.trees[KeptGenes(d, n, threshold)[m]].confidences) &&
      KeptAverages(d, n, threshold)[m] >= threshold
  {
    if n > 0 {
      KeptAligned(d, n - 1, threshold);
    }
  }

  /** A gene is kept exactly when it is a key whose average confidence reaches
      the threshold (the comparison is inclusive). */
  lemma {:induction false} KeptExactly(d: TreeDict, n: nat, threshold: real, gene: string)
    requires d.Valid() && CanAverage(d) && n <= |d.keys|
    ensures gene in KeptGenes(d, n, threshold) <==>
      gene in d.keys[..n] && Mean(d.trees[gene].confidences) >= threshold
  {
    if n > 0 {
      KeptExactly(d, n - 1, threshold, gene);
      assert d.keys[..n] == d.keys[..n - 1] + [d.keys[n - 1]];
    }
  }

  /** Each kept gene adds at most one row per climatic tree. */
  lemma {:induction false} PairingsBound(genetic: Tree, gene: string, bootstrap: real, climatic: TreeDict, c: nat,
                                         rows: seq<seq<string>>, p: Params)
    requires climatic.Valid() && c <= |climatic.keys|
    ensures |Pairings(genetic, gene, bootstrap, climatic, c, rows, p)| <= c
  {
    if c > 0 {
      PairingsBound(genetic, gene, bootstrap, climatic, c - 1, rows, p);
    }
  }

  /** n kept genes against the climatic trees give at most n rows per climatic tree. */
  lemma {:induction false} AllRecordsBound(genetic: TreeDict, genes: seq<string>, boots: seq<real>, climatic: TreeDict,
                                           rows: seq<seq<string>>, p: Params, n: nat)
    requires climatic.Valid() && n <= |genes| <= |boots|
    requires forall g :: 0 <= g < |genes| ==> genes[g] in genetic.trees
    ensures |AllRecords(genetic, genes, boots, climatic, rows, p, n)| <= n * |climatic.keys|
  {
    if n > 0 {
      AllRecordsBound(genetic, genes, boots, climatic, rows, p, n - 1);
      PairingsBound(genetic.trees[genes[n - 1]], genes[n - 1], boots[n - 1], climatic, |climatic.keys|, rows, p);
      assert (n - 1) * |climatic.keys| + |climatic.keys| == n * |climatic.keys|;
    }
  }

  /** Every row of one gene's pairings comes from a climatic tree within the
      least-squares threshold, and is that tree's lookup result. */
  lemma {:induction false} PairingsSound(genetic: Tree, gene: string, bootstrap: real, climatic: TreeDict, c: nat,
                                         rows: seq<seq<string>>, p: Params, m: nat) returns (j: nat)
    requires climatic.Valid() && c <= |climatic.keys|
    requires m < |Pairings(genetic, gene, bootstrap, climatic, c, rows, p)|
    ensures j < c
    ensures LeastSquareOf(genetic, climatic.trees[climatic.keys[j]]) <= p.lsThreshold
    ensures Pairings(genetic, gene, bootstrap, climatic, c, rows, p)[m] ==
      RecordFor(rows, genetic.leaves, LeastSquareOf(genetic, climatic.trees[climatic.keys[j]]), climatic.keys[j],
                gene, bootstrap, p)
  {
    var previous := Pairings(genetic, gene, bootstrap, climatic, c - 1, rows, p);
    if m < |previous| {
      j := PairingsSound(genetic, gene, bootstrap, climatic, c - 1, rows, p, m);
    } else {
      j := c - 1;
    }
  }

  /** Every climatic tree within the least-squares threshold contributes its
      lookup result to the gene's pairings. */
  lemma {:induction false} PairingsComplete(genetic: Tree, gene: string, bootstrap: real, climatic: TreeDict, c: nat,
                                            rows: seq<seq<string>>, p: Params, j: nat)
    requires climatic.Valid() && j < c <= |climatic.keys|
    requires LeastSquareOf(genetic, climatic.trees[climatic.keys[j]]) <= p.lsThreshold
    ensures RecordFor(rows, genetic.leaves, LeastSquareOf(genetic, climatic.trees[climatic.keys[j]]), climatic.keys[j],
                      gene, bootstrap, p) in Pairings(genetic, gene, bootstrap, climatic, c, rows, p)
  {
    var previous := Pairings(genetic, gene, bootstrap, climatic, c - 1, rows, p);
    var name := climatic.keys[j];
    var record := RecordFor(rows, genetic.leaves, LeastSquareOf(genetic, climatic.trees[name]), name, gene, bootstrap, p);
    if j < c - 1 {
      PairingsComplete(genetic, gene, bootstrap, climatic, c - 1, rows, p, j);
      assert record in previous;
    } else {
      assert Pairings(genetic, gene, bootstrap, climatic, c, rows, p) == previous + [record];
    }
  }

  /** Every row gathered for the first n genes belongs to one of them (reported
      with that gene's position in `boots`) and to a climatic tree within the
      least-squares threshold. */
  lemma {:induction false} AllRecordsSound(genetic: TreeDict, genes: seq<string>, boots: seq<real>, climatic: TreeDict,
                                           rows: seq<seq<string>>, p: Params, n: nat, m: nat) returns (g: nat, j: nat)
    requires climatic.Valid() && n <= |genes| <= |boots|
    requires forall g :: 0 <= g < |genes| ==> genes[g] in genetic.trees
    requires m < |AllRecords(genetic, genes, boots, climatic, rows, p, n)|
    ensures g < n && j < |climatic.keys|
    ensures LeastSquareOf(genetic.trees[genes[g]], climatic.trees[climatic.keys[j]]) <= p.lsThreshold
    ensures AllRecords(genetic, genes, boots, climatic, rows, p, n)[m] ==
      RecordFor(rows, genetic.trees[genes[g]].leaves, LeastSquareOf(genetic.trees[genes[g]], climatic.trees[climatic.keys[j]]),
                climatic.keys[j], genes[g], boots[g], p)
  {
    var previous := AllRecords(genetic, genes, boots, climatic, rows, p, n - 1);
    var last := Pairings(genetic.trees[genes[n - 1]], genes[n - 1], boots[n - 1], climatic, |climatic.keys|, rows, p);
    if m < |previous| {
      g, j := AllRecordsSound(genetic, genes, boots, climatic, rows, p, n - 1, m);
      assert AllRecords(genetic, genes, boots, climatic, rows, p, n)[m] == previous[m];
    } else {
      g := n - 1;
      j := PairingsSound(genetic.trees[genes[g]], genes[g], boots[g], climatic, |climatic.keys|, rows, p, m - |previous|);
      assert AllRecords(genetic, genes, boots, climatic, rows, p, n)[m] == last[m - |previous|];
    }
  }

  /** Every (gene, climatic tree) pair within the least-squares threshold
      contributes its lookup result. */
  lemma {:induction false} AllRecordsComplete(genetic: TreeDict, genes: seq<string>, boots: seq<real>, climatic: TreeDict,
                                              rows: seq<seq<string>>, p: Params, n: nat, g: nat, j: nat)
    requires climatic.Valid() && n <= |genes| <= |boots|
    requires forall g :: 0 <= g < |genes| ==> genes[g] in genetic.trees
    requires g < n && j < |climatic.keys|
    requires LeastSquareOf(genetic.trees[genes[g]], climatic.trees[climatic.keys[j]]) <= p.lsThreshold
    ensures RecordFor(rows, genetic.trees[genes[g]].leaves, LeastSquareOf(genetic.trees[genes[g]], climatic.trees[climatic.keys[j]]),
                      climatic.keys[j], genes[g], boots[g], p) in AllRecords(genetic, genes, boots, climatic, rows, p, n)
  {
    if g < n - 1 {
      AllRecordsComplete(genetic, genes, boots, climatic, rows, p, n - 1, g, j);
    } else {
      PairingsComplete(genetic.trees[genes[g]], genes[g], boots[g], climatic, |climatic.keys|, rows, p, j);
    }
  }

  /** What a reported row stands for when the run starts with no stored
      averages: the reference gene's label, a kept gene and its own average,
      a climatic tree within the least-squares threshold, and the gene tree's
      first leaf, found in the climatic rows. */
  ghost predicate Justified(geneticTrees: TreeDict, climaticTrees: TreeDict, rows: seq<seq<string>>, p: Params, r: Record)
  {
    && r.gene == p.referenceGene
    && r.position in geneticTrees.trees && r.climaticTree in climaticTrees.trees
    && var genetic := geneticTrees.trees[r.position];
       && |genetic.confidences| >= 2
       && |genetic.leaves| > 0 && r.species == genetic.leaves[0] && HasRow(rows, r.species)
       && r.bootstrapMean == Mean(genetic.confidences) && r.bootstrapMean >= p.bootstrapThreshold
       && r.leastSquare == LeastSquareOf(genetic, climaticTrees.trees[r.climaticTree])
       && r.leastSquare <= p.lsThreshold
  }

  /** In a run that starts with no stored averages, every row that is not a
      failed lookup is justified. */
  lemma FreshRunSound(geneticTrees: TreeDict, climaticTrees: TreeDict, rows: seq<seq<string>>, p: Params, m: nat)
    requires climaticTrees.Valid() && geneticTrees.Valid() && CanAverage(geneticTrees)
    ensures KeptGenesInTrees(geneticTrees, p.bootstrapThreshold)
    ensures |KeptGenes(geneticTrees, |geneticTrees.keys|, p.bootstrapThreshold)| ==
            |KeptAverages(geneticTrees, |geneticTrees.keys|, p.bootstrapThreshold)|
    ensures var kept := KeptGenes(geneticTrees, |geneticTrees.keys|, p.bootstrapThreshold);
            var records := AllRecords(geneticTrees, kept, KeptAverages(geneticTrees, |geneticTrees.keys|, p.bootstrapThreshold),
                                      climaticTrees, rows, p, |kept|);
            m < |records| && records[m].Some? ==> Justified(geneticTrees, climaticTrees, rows, p, records[m].value)
  {
    var n := |geneticTrees.keys|;
    KeptAligned(geneticTrees, n, p.bootstrapThreshold);
    var kept := KeptGenes(geneticTrees, n, p.bootstrapThreshold);
    var boots := KeptAverages(geneticTrees, n, p.bootstrapThreshold);
    var records := AllRecords(geneticTrees, kept, boots, climaticTrees, rows, p, |kept|);
    if m < |records| && records[m].Some? {
      var g, j := AllRecordsSound(geneticTrees, kept, boots, climaticTrees, rows, p, |kept|, m);
    }
  }

  /** In a run that starts with no stored averages, every kept gene and every
      climatic tree within the least-squares threshold give a row, whenever
      the gene tree's first leaf is found in the climatic rows. */
  lemma FreshRunComplete(geneticTrees: TreeDict, climaticTrees: TreeDict, rows: seq<seq<string>>, p: Params,
                         gene: string, name: string)
    requires climaticTrees.Valid() && geneticTrees.Valid() && CanAverage(geneticTrees)
    requires gene in geneticTrees.keys && name in climaticTrees.keys
    requires Mean(geneticTrees.trees[gene].confidences) >= p.bootstrapThreshold
    requires LeastSquareOf(geneticTrees.trees[gene], climaticTrees.trees[name]) <= p.lsThreshold
    requires |geneticTrees.trees[gene].leaves| > 0 && HasRow(rows, geneticTrees.trees[gene].leaves[0])
    ensures KeptGenesInTrees(geneticTrees, p.bootstrapThreshold)
    ensures |KeptGenes(geneticTrees, |geneticTrees.keys|, p.bootstrapThreshold)| ==
            |KeptAverages(geneticTrees, |geneticTrees.keys|, p.bootstrapThreshold)|
    ensures var kept := KeptGenes(geneticTrees, |geneticTrees.keys|, p.bootstrapThreshold);
            var genetic := geneticTrees.trees[gene];
            Some(Record(p.referenceGene, name, genetic.leaves[0], gene, Mean(genetic.confidences),
                        LeastSquareOf(genetic, climaticTrees.trees[name])))
            in AllRecords(geneticTrees, kept, KeptAverages(geneticTrees, |geneticTrees.keys|, p.bootstrapThreshold),
                          climaticTrees, rows, p, |kept|)
  {
    var n := |geneticTrees.keys|;
    KeptAligned(geneticTrees, n, p.bootstrapThreshold);
    KeptExactly(geneticTrees, n, p.bootstrapThreshold, gene);
    assert geneticTrees.keys[..n] == geneticTrees.keys;
    var kept := KeptGenes(geneticTrees, n, p.bootstrapThreshold);
    var boots := KeptAverages(geneticTrees, n, p.bootstrapThreshold);
    var g :| 0 <= g < |kept| && kept[g] == gene;
    var j :| 0 <= j < |climaticTrees.keys| && climaticTrees.keys[j] == name;
    AllRecordsComplete(geneticTrees, kept, boots, climaticTrees, rows, p, |kept|, g, j);
  }
}
