/** From the loop of DoCompactionWork to the tables that InstallCompactionResults adds
    (db/db_impl.cc). */
module Tables {
  import opened DbFormat
  import opened Versions
  import opened Setup
  import opened Compact
  import opened Preserve
  import opened Lookup

  /** `f` is the table that holds `es`: its meta data name the first and the last key. */
  ghost predicate IsTable(f: File, es: seq<Entry>) {
    es != [] && f.entries == es && f.smallest == es[0].key && f.largest == es[|es| - 1].key
  }

  ghost predicate AreTables(outs: seq<File>, outputs: seq<seq<Entry>>) {
    |outs| == |outputs| && forall i :: 0 <= i < |outs| ==> IsTable(outs[i], outputs[i])
  }

  /** Cutting a sorted run into tables gives well-formed tables in order. */
  lemma {:induction false} CutIsDisjoint(outs: seq<File>, outputs: seq<seq<Entry>>)
    requires AreTables(outs, outputs) && Sorted(Flatten(outputs))
    ensures AllWellFormed(outs) && Disjoint(outs)
    ensures forall e :: e in FileEntries(outs) <==> e in Flatten(outputs)
  {
    if outs != [] {
      var n := |outs| - 1;
      var before, last := Flatten(outputs[..n]), outputs[n];
      assert Flatten(outputs) == before + last;
      PartsSorted(before, last);
      CutIsDisjoint(outs[..n], outputs[..n]);
      CutMembers(outs, n, before, last);
      CutOrder(outs, n, before, last);
      assert outs == outs[..n] + [outs[n]];
    }
  }

  lemma PartsSorted(a: seq<Entry>, b: seq<Entry>)
    requires Sorted(a + b)
    ensures Sorted(a) && Sorted(b)
    ensures forall x, y :: x in a && y in b ==> Before(x.key, y.key)
  {
    var s := a + b;
    assert a == s[..|a|] && b == s[|a|..];
    forall x, y | x in a && y in b
      ensures Before(x.key, y.key)
    {
      var i :| 0 <= i < |a| && a[i] == x;
      var j :| 0 <= j < |b| && b[j] == y;
      assert s[i] == x && s[|a| + j] == y;
    }
  }

  lemma CutOrder(outs: seq<File>, n: nat, before: seq<Entry>, last: seq<Entry>)
    requires n + 1 == |outs| && IsTable(outs[n], last) && AllWellFormed(outs[..n])
    requires forall e :: e in FileEntries(outs[..n]) <==> e in before
    requires forall x, y :: x in before && y in last ==> Before(x.key, y.key)
    ensures forall i :: 0 <= i < n ==> Before(outs[i].largest, outs[n].smallest)
  {
    forall i | 0 <= i < n
      ensures Before(outs[i].largest, outs[n].smallest)
    {
      var f := outs[..n][i];
      assert f in outs[..n] && WellFormed(f);
      var e := f.entries[|f.entries| - 1];
      assert e in f.entries;
      assert e in FileEntries(outs[..n]);
      assert last[0] in last;
    }
  }

  lemma CutMembers(outs: seq<File>, n: nat, before: seq<Entry>, last: seq<Entry>)
    requires n + 1 == |outs| && outs[n].entries == last
    requires forall e :: e in FileEntries(outs[..n]) <==> e in before
    ensures forall e :: e in FileEntries(outs) <==> e in before + last
  {
    assert outs == outs[..n] + [outs[n]];
    forall e
      ensures e in FileEntries(outs) <==> e in before + last
    {
      if e in FileEntries(outs) {
        var f :| f in outs && e in f.entries;
        assert f in outs[..n] ==> e in FileEntries(outs[..n]);
      }
      if e in before {
        var f :| f in outs[..n] && e in f.entries;
        assert f in outs;
      }
      if e in last {
        assert outs[n] in outs;
      }
    }
  }

  /** The tables written by DoCompactionWork are the outputs of the compaction. */
  lemma LoopMakesOutputs(v: Version, c: Compaction, smallest: SequenceNumber, input: seq<Entry>,
                         outputs: seq<seq<Entry>>, outs: seq<File>)
    requires Sorted(input) && Elements(input) == InputEntries(c)
    requires Flatten(outputs) == Survivors(v, c.level, InputEntries(c), smallest, input)
    requires AreTables(outs, outputs)
    ensures Outputs(v, c, smallest, outs)
  {
    SurvivorsAreKept(v, c.level, InputEntries(c), smallest, input);
    CutIsDisjoint(outs, outputs);
    forall e
      ensures e in FileEntries(outs) <==> e in Kept(v, c.level, InputEntries(c), smallest)
    {
      assert e in input <==> e in InputEntries(c);
    }
  }
}
