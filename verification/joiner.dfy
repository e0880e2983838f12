/** The joiner: every `.json` file of a directory, each holding one
    object, merged into one object with `dict.update`, in directory
    listing order. */
module Joiner {
  import opened Text
  import opened Dicts

  /** A file taken by the joiner: its name ends with `.json`. */
  predicate IsJson(name: string) {
    EndsWith(name, ".json")
  }

  /** The listed files: a name and the object its content holds. */
  type Listing<V> = seq<(string, Dict<string, V>)>

  ghost predicate AllValid<V>(files: Listing<V>) {
    forall i :: 0 <= i < |files| ==> files[i].1.Valid()
  }

  /** The keys of every `.json` file, in listing order and, within a
      file, in the file's order. */
  ghost function KeyStream<V>(files: Listing<V>): seq<string>
    decreases |files|
  {
    if |files| == 0 then []
    else KeyStream(files[..|files| - 1]) + (if IsJson(files[|files| - 1].0) then files[|files| - 1].1.order else [])
  }

  /** Key `k` is in the `i`th file, a `.json` one, and in no later `.json`
      file: the file whose value for `k` survives. */
  ghost predicate LastHolder<V>(files: Listing<V>, i: nat, k: string)
    requires i < |files|
  {
    && IsJson(files[i].0) && k in files[i].1.entries
    && forall j :: i < j < |files| && IsJson(files[j].0) ==> k !in files[j].1.entries
  }

  /** `main` of the joiner, up to writing the output: `data.update` with
      the object of every `.json` file, in listing order. */
  function JoinFiles<V>(files: Listing<V>): (r: Dict<string, V>)
    requires AllValid(files)
    ensures r.Valid()
    ensures forall k :: k in r.entries <==> InSome(files, k)
    ensures forall i, k :: 0 <= i < |files| && LastHolder(files, i, k) ==>
              k in r.entries && r.entries[k] == files[i].1.entries[k]
    ensures r.order == Fresh(KeyStream(files), {})
    decreases |files|
  {
    if |files| == 0 then Empty()
    else
      var init := files[..|files| - 1];
      var last := files[|files| - 1];
      assert forall i :: 0 <= i < |init| ==> init[i] == files[i];
      var d := JoinFiles(init);
      JoinStep(init, files, d);
      if IsJson(last.0) then Update(d, last.1) else d
  }

  /** The keys of the `.json` files of a listing. */
  ghost predicate InSome<V>(files: Listing<V>, k: string) {
    exists i :: 0 <= i < |files| && IsJson(files[i].0) && k in files[i].1.entries
  }

  /** One step of `JoinFiles`: the last file is merged into the result of
      the earlier ones, when it is a `.json` file. */
  lemma JoinStep<V>(init: Listing<V>, files: Listing<V>, d: Dict<string, V>)
    requires |files| > 0 && init == files[..|files| - 1] && AllValid(files) && d.Valid()
    requires forall k :: k in d.entries <==> InSome(init, k)
    requires forall i, k :: 0 <= i < |init| && LastHolder(init, i, k) ==>
               k in d.entries && d.entries[k] == init[i].1.entries[k]
    requires d.order == Fresh(KeyStream(init), {})
    ensures var last := files[|files| - 1];
            var r := if IsJson(last.0) then Update(d, last.1) else d;
            && (forall k :: k in r.entries <==> InSome(files, k))
            && (forall i, k :: 0 <= i < |files| && LastHolder(files, i, k) ==>
              k in r.entries && r.entries[k] == files[i].1.entries[k])
            && r.order == Fresh(KeyStream(files), {})
  {
    var last := files[|files| - 1];
    var r := if IsJson(last.0) then Update(d, last.1) else d;
    assert r.Valid();
    JoinStepKeys(init, files, d, r);
    JoinStepValues(init, files, d, r);
    JoinStepOrder(init, files, d, r);
  }

  lemma JoinStepKeys<V>(init: Listing<V>, files: Listing<V>, d: Dict<string, V>, r: Dict<string, V>)
    requires |files| > 0 && init == files[..|files| - 1]
    requires forall k :: k in d.entries <==> InSome(init, k)
    requires IsJson(files[|files| - 1].0) ==> r.entries == d.entries + files[|files| - 1].1.entries
    requires !IsJson(files[|files| - 1].0) ==> r == d
    ensures forall k :: k in r.entries <==> InSome(files, k)
  {
    var n := |files| - 1;
    assert forall i :: 0 <= i < |init| ==> init[i] == files[i];
    forall k
      ensures k in r.entries <==> InSome(files, k)
    {
      if k in d.entries {
        var i :| 0 <= i < |init| && IsJson(init[i].0) && k in init[i].1.entries;
        assert IsJson(files[i].0) && k in files[i].1.entries;
      } else if k in r.entries {
        assert IsJson(files[n].0) && k in files[n].1.entries;
      }
      if InSome(files, k) {
        var i :| 0 <= i < |files| && IsJson(files[i].0) && k in files[i].1.entries;
        if i < n {
          assert InSome(init, k);
        }
      }
    }
  }

  lemma JoinStepValues<V>(init: Listing<V>, files: Listing<V>, d: Dict<string, V>, r: Dict<string, V>)
    requires |files| > 0 && init == files[..|files| - 1]
    requires forall i, k :: 0 <= i < |init| && LastHolder(init, i, k) ==>
               k in d.entries && d.entries[k] == init[i].1.entries[k]
    requires IsJson(files[|files| - 1].0) ==> r.entries == d.entries + files[|files| - 1].1.entries
    requires !IsJson(files[|files| - 1].0) ==> r == d
    ensures forall i, k :: 0 <= i < |files| && LastHolder(files, i, k) ==>
              k in r.entries && r.entries[k] == files[i].1.entries[k]
  {
    var n := |files| - 1;
    var last := files[n];
    assert forall i :: 0 <= i < |init| ==> init[i] == files[i];
    forall i, k | 0 <= i < |files| && LastHolder(files, i, k)
      ensures k in r.entries && r.entries[k] == files[i].1.entries[k]
    {
      if i < n {
        assert LastHolder(init, i, k);
        assert !(IsJson(last.0) && k in last.1.entries);
      }
    }
  }

  lemma JoinStepOrder<V>(init: Listing<V>, files: Listing<V>, d: Dict<string, V>, r: Dict<string, V>)
    requires |files| > 0 && init == files[..|files| - 1] && AllValid(init) && d.Valid()
    requires d.order == Fresh(KeyStream(init), {})
    requires IsJson(files[|files| - 1].0) ==>
               r.order == d.order + Fresh(files[|files| - 1].1.order, d.entries.Keys)
    requires !IsJson(files[|files| - 1].0) ==> r == d
    ensures r.order == Fresh(KeyStream(files), {})
  {
    var last := files[|files| - 1];
    assert KeyStream(files) == KeyStream(init) + (if IsJson(last.0) then last.1.order else []);
    if IsJson(last.0) {
      KeysOfStream(init, d);
      FreshConcat(KeyStream(init), last.1.order, {});
    } else {
      assert KeyStream(files) == KeyStream(init);
    }
  }

  /** The keys of the merged result are the keys the stream mentions. */
  lemma KeysOfStream<V>(init: Listing<V>, d: Dict<string, V>)
    requires AllValid(init) && d.Valid()
    requires d.order == Fresh(KeyStream(init), {})
    ensures d.entries.Keys == {} + (set k | k in KeyStream(init))
  {
    FreshElements(KeyStream(init), {});
  }

  /** `Fresh` lists exactly the elements not already known. */
  lemma {:induction false} FreshElements<K>(ks: seq<K>, known: set<K>)
    ensures forall k :: k in Fresh(ks, known) <==> k in ks && k !in known
    decreases |ks|
  {
    if |ks| > 0 {
      if ks[0] in known {
        FreshElements(ks[1..], known);
      } else {
        FreshElements(ks[1..], known + {ks[0]});
      }
      assert forall k :: k in ks <==> k == ks[0] || k in ks[1..];
    }
  }

  /** `Fresh` over a concatenation: the second part only adds what the
      first did not already list. */
  lemma {:induction false} FreshConcat<K>(a: seq<K>, b: seq<K>, known: set<K>)
    ensures Fresh(a + b, known) == Fresh(a, known) + Fresh(b, known + (set k | k in a))
    decreases |a|
  {
    if |a| == 0 {
      assert a + b == b;
      assert known + (set k | k in a) == known;
    } else {
      assert (a + b)[0] == a[0];
      assert (a + b)[1..] == a[1..] + b;
      var known' := if a[0] in known then known else known + {a[0]};
      FreshConcat(a[1..], b, known');
      assert known' + (set k | k in a[1..]) == known + (set k | k in a);
    }
  }

  /** Files whose names do not end with `.json` change nothing. */
  lemma IgnoresOthers<V>(files: Listing<V>, name: string, d: Dict<string, V>)
    requires AllValid(files) && d.Valid() && !IsJson(name)
    ensures AllValid(files + [(name, d)])
    ensures JoinFiles(files + [(name, d)]) == JoinFiles(files)
  {
    assert (files + [(name, d)])[..|files|] == files;
  }
}
