/** The attribute file (`writeVariable` and `writeMetadataAttributes`): one
    shell-sourceable `COREOS_<key>=<value>` line per populated attribute. */
module Attributes {
  import opened Wrappers
  import opened Strings
  import opened Providers

  /** The namespace in front of every variable name. */
  const Prefix: string := "COREOS_"

  /** The files on disk, by path. */
  type Files = map<string, string>

  /** `writeVariable`: what it prints for one attribute; nothing at all when
      the value is empty. */
  function WriteVariable(key: string, value: string): (r: string)
    ensures r == [] <==> value == []
    ensures r != [] ==> HasPrefix(r, Prefix) && r[|r| - 1] == '\n'
  {
    if |value| > 0 then Prefix + key + "=" + value + "\n" else ""
  }

  /** The name and value a line holds: the line without the prefix and the
      newline, split at its first `=`. This is a split, not a shell: the
      value is written unquoted, so a shell would treat white space, quotes,
      `$` or `;` in it as syntax. */
  function ParseVariable(line: string): Option<(string, string)> {
    if HasPrefix(line, Prefix) && |line| > |Prefix| && line[|line| - 1] == '\n' then
      var parts := Cut(line[|Prefix|..|line| - 1], '=');
      if |parts| == 2 then Some((parts[0], parts[1])) else None
    else None
  }

  /** A printed line splits back into its attribute's name and value, for
      names without `=`. */
  lemma VariableRoundTrip(key: string, value: string)
    requires '=' !in key && value != []
    ensures ParseVariable(WriteVariable(key, value)) == Some((key, value))
  {
    var line := WriteVariable(key, value);
    assert line[|Prefix|..|line| - 1] == key + "=" + value;
    KeyValueCut(key, value);
  }

  /** Indexing a Go map: a missing key reads as the zero value "". */
  function Lookup(attrs: map<string, string>, key: string): string {
    if key in attrs then attrs[key] else ""
  }

  /** The non-empty writes of `writeVariable` when the map is visited in the
      order `order`. */
  function Writes(order: seq<string>, attrs: map<string, string>): seq<string> {
    if |order| == 0 then []
    else Writes(order[..|order| - 1], attrs) + Emitted(order[|order| - 1], attrs)
  }

  /** The write for one key, if its value is not empty. */
  function Emitted(key: string, attrs: map<string, string>): seq<string> {
    var w := WriteVariable(key, Lookup(attrs, key));
    if w == [] then [] else [w]
  }

  function Concat(chunks: seq<string>): string {
    if |chunks| == 0 then "" else Concat(chunks[..|chunks| - 1]) + chunks[|chunks| - 1]
  }

  predicate Distinct(order: seq<string>) {
    forall i, j :: 0 <= i < j < |order| ==> order[i] != order[j]
  }

  /** `order` visits every key of `keys` exactly once: a possible iteration
      order of a Go map with those keys. */
  predicate Enumerates(order: seq<string>, keys: set<string>) {
    && Distinct(order)
    && (forall k :: k in order ==> k in keys)
    && (forall k :: k in keys ==> k in order)
  }

  /** Some order in which a map with keys `keys` may be visited. */
  ghost function Enumeration(keys: set<string>): (r: seq<string>)
    ensures Enumerates(r, keys)
  {
    if keys == {} then []
    else
      var k :| k in keys;
      var rest := Enumeration(keys - {k});
      assert forall i :: 0 <= i < |rest| ==> rest[i] != k;
      [k] + rest
  }

  /** The injected failures of the file system: `MkdirAll` or `Create`
      failing, or the given write (counting from 0) failing. */
  datatype AttrFaults = AttrFaults(mkdirFails: bool, createFails: bool, failingWrite: Option<nat>)

  /** `AttrExit` is the direct `os.Exit(1)`; `AttrError` the error returned
      to the caller after a failed write. */
  datatype AttrStatus = AttrOk | AttrExit | AttrError

  /** The effect of `writeMetadataAttributes` when the map is visited in the
      order `order`: nothing for an empty path; otherwise the file at `path`
      is truncated and holds what was written before the first failure. */
  function AttrEffect(path: string, attrs: map<string, string>, order: seq<string>,
                      faults: AttrFaults, files: Files): (r: (AttrStatus, Files))
    ensures forall p :: p != path ==> (p in r.1 <==> p in files)
    ensures forall p :: p != path && p in files ==> r.1[p] == files[p]
    ensures path == "" || r.0 == AttrExit ==> r == (r.0, files)
    ensures r.0 == AttrOk && path != "" ==> path in r.1 && r.1[path] == Concat(Writes(order, attrs))
  {
    if path == "" then (AttrOk, files)
    else if faults.mkdirFails || faults.createFails then (AttrExit, files)
    else
      var ws := Writes(order, attrs);
      if faults.failingWrite.Some? && faults.failingWrite.value < |ws| then
        (AttrError, files[path := Concat(ws[..faults.failingWrite.value])])
      else
        (AttrOk, files[path := Concat(ws)])
  }

  lemma {:induction false} WritesAppend(a: seq<string>, b: seq<string>, attrs: map<string, string>)
    ensures Writes(a + b, attrs) == Writes(a, attrs) + Writes(b, attrs)
  {
    if |b| == 0 {
      assert a + b == a;
    } else {
      var front := b[..|b| - 1];
      assert (a + b)[..|a + b| - 1] == a + front;
      assert (a + b)[|a + b| - 1] == b[|b| - 1];
      WritesAppend(a, front, attrs);
      calc {
        Writes(a + b, attrs);
        Writes(a + front, attrs) + Emitted(b[|b| - 1], attrs);
        Writes(a, attrs) + Writes(front, attrs) + Emitted(b[|b| - 1], attrs);
        Writes(a, attrs) + Writes(b, attrs);
      }
    }
  }

  lemma WritesStep(order: seq<string>, key: string, attrs: map<string, string>)
    ensures Writes(order + [key], attrs) == Writes(order, attrs) + Emitted(key, attrs)
  {
    assert (order + [key])[..|order|] == order;
  }

  lemma ConcatStep(chunks: seq<string>, w: string)
    ensures Concat(chunks + [w]) == Concat(chunks) + w
  {
    assert (chunks + [w])[..|chunks|] == chunks;
  }

  /** A visit that stops at a failing write still belongs to a complete
      order: the one that goes on with the unvisited keys. */
  lemma FailingWrite(order: seq<string>, key: string, rest: seq<string>, attrs: map<string, string>)
    requires Lookup(attrs, key) != ""
    ensures var ws := Writes(order + [key] + rest, attrs);
            |Writes(order, attrs)| < |ws| && ws[..|Writes(order, attrs)|] == Writes(order, attrs)
  {
    WritesAppend(order + [key], rest, attrs);
    WritesStep(order, key, attrs);
  }

  lemma EnumeratesAppend(a: seq<string>, keysA: set<string>, b: seq<string>, keysB: set<string>)
    requires Enumerates(a, keysA) && Enumerates(b, keysB) && keysA !! keysB
    ensures Enumerates(a + b, keysA + keysB)
  {
    forall i, j | 0 <= i < j < |a + b|
      ensures (a + b)[i] != (a + b)[j]
    {
      if j >= |a| && i < |a| {
        assert (a + b)[i] in keysA && (a + b)[j] in keysB;
      }
    }
  }

  /** Visiting one more key keeps `order` a visit of the keys seen so far. */
  lemma VisitStep(order: seq<string>, keys: set<string>, remaining: set<string>, key: string)
    requires remaining <= keys && key in remaining
    requires Enumerates(order, keys - remaining)
    ensures Enumerates(order + [key], keys - (remaining - {key}))
  {
    EnumeratesAppend(order, keys - remaining, [key], {key});
    assert keys - (remaining - {key}) == keys - remaining + {key};
  }

  /** When the write for `key` fails, the file holds the earlier writes,
      which is the effect of visiting the keys not yet seen after `key`. */
  lemma StopsAtFailingWrite(path: string, attrs: map<string, string>, order: seq<string>, key: string,
                            remaining: set<string>, faults: AttrFaults, files: Files)
    requires path != "" && !faults.mkdirFails && !faults.createFails
    requires remaining <= attrs.Keys && key in remaining && attrs[key] != ""
    requires Enumerates(order, attrs.Keys - remaining)
    requires faults.failingWrite == Some(|Writes(order, attrs)|)
    ensures var full := order + [key] + Enumeration(remaining - {key});
            && Enumerates(full, attrs.Keys)
            && AttrEffect(path, attrs, full, faults, files)
               == (AttrError, files[path := Concat(Writes(order, attrs))])
  {
    var rest := Enumeration(remaining - {key});
    FailingWrite(order, key, rest, attrs);
    EnumeratesAppend(order, attrs.Keys - remaining, [key], {key});
    EnumeratesAppend(order + [key], attrs.Keys - remaining + {key}, rest, remaining - {key});
    assert attrs.Keys - remaining + {key} + (remaining - {key}) == attrs.Keys;
  }

  /** `writeMetadataAttributes`: the map is visited in an order the model
      does not fix, given back as `order`. */
  method WriteMetadataAttributes(path: string, metadata: Metadata, faults: AttrFaults, files: Files)
    returns (status: AttrStatus, files': Files, ghost order: seq<string>)
    ensures path != "" && !faults.mkdirFails && !faults.createFails
            ==> Enumerates(order, metadata.attributes.Keys)
    ensures (status, files') == AttrEffect(path, metadata.attributes, order, faults, files)
    ensures status == AttrExit <==> path != "" && (faults.mkdirFails || faults.createFails)
    ensures status == AttrError <==> FailsWithin(path, metadata.attributes, faults)
    ensures forall p :: p != path ==> (p in files' <==> p in files)
    ensures forall p :: p != path && p in files ==> files'[p] == files[p]
    ensures path == "" || status == AttrExit ==> files' == files
    ensures path != "" && status != AttrExit ==> path in files'
  {
    order := [];
    if path == "" {
      return AttrOk, files, order;
    }
    if faults.mkdirFails {
      return AttrExit, files, order;
    }
    if faults.createFails {
      return AttrExit, files, order;
    }
    var attrs := metadata.attributes;
    var content := "";
    var writes := 0;
    files' := files[path := content];
    var remaining := attrs.Keys;
    while remaining != {}
      invariant remaining <= attrs.Keys
      invariant Enumerates(order, attrs.Keys - remaining)
      invariant content == Concat(Writes(order, attrs)) && writes == |Writes(order, attrs)|
      invariant faults.failingWrite.Some? ==> writes <= faults.failingWrite.value
      invariant files' == files[path := content]
      decreases remaining
    {
      var key :| key in remaining;
      var value := attrs[key];
      WritesStep(order, key, attrs);
      assert Emitted(key, attrs) == if |value| > 0 then [WriteVariable(key, value)] else [];
      VisitStep(order, attrs.Keys, remaining, key);
      if |value| > 0 {
        if faults.failingWrite.Some? && faults.failingWrite.value == writes {
          StopsAtFailingWrite(path, attrs, order, key, remaining, faults, files);
          order := order + [key] + Enumeration(remaining - {key});
          status := AttrError;
          AttrEffectStatus(path, attrs, order, faults, files);
          return;
        }
        ConcatStep(Writes(order, attrs), WriteVariable(key, value));
        content := content + WriteVariable(key, value);
        writes := writes + 1;
        files' := files[path := content];
      } else {
        assert Writes(order, attrs) + [] == Writes(order, attrs);
      }
      order := order + [key];
      remaining := remaining - {key};
    }
    assert attrs.Keys - remaining == attrs.Keys;
    status := AttrOk;
    AttrEffectStatus(path, attrs, order, faults, files);
  }

  /** The keys whose values are not empty. */
  function Populated(attrs: map<string, string>): set<string> {
    set k | k in attrs && attrs[k] != ""
  }

  /** Every populated key of `order` has its line among the writes. */
  lemma {:induction false} WritesComplete(order: seq<string>, attrs: map<string, string>, k: string)
    requires k in order && Lookup(attrs, k) != ""
    ensures WriteVariable(k, Lookup(attrs, k)) in Writes(order, attrs)
  {
    var front := order[..|order| - 1];
    var last := order[|order| - 1];
    assert Writes(order, attrs) == Writes(front, attrs) + Emitted(last, attrs);
    if k == last {
      assert Emitted(last, attrs) == [WriteVariable(k, Lookup(attrs, k))];
    } else {
      assert k in front by {
        assert order == front + [last];
      }
      WritesComplete(front, attrs, k);
    }
  }

  /** Every write is the line of a populated key of `order`. */
  lemma {:induction false} WritesSound(order: seq<string>, attrs: map<string, string>, w: string)
    requires w in Writes(order, attrs)
    ensures exists k :: k in order && Lookup(attrs, k) != "" && w == WriteVariable(k, Lookup(attrs, k))
  {
    var front := order[..|order| - 1];
    var last := order[|order| - 1];
    assert Writes(order, attrs) == Writes(front, attrs) + Emitted(last, attrs);
    if w in Emitted(last, attrs) {
      assert last in order && Lookup(attrs, last) != "" && w == WriteVariable(last, Lookup(attrs, last));
    } else {
      WritesSound(front, attrs, w);
      var k :| k in front && Lookup(attrs, k) != "" && w == WriteVariable(k, Lookup(attrs, k));
      assert k in order;
    }
  }

  /** The keys of `order` whose values are not empty. */
  function PopulatedIn(order: seq<string>, attrs: map<string, string>): set<string> {
    set k | k in order && Lookup(attrs, k) != ""
  }

  lemma PopulatedInStep(front: seq<string>, last: string, attrs: map<string, string>)
    ensures PopulatedIn(front + [last], attrs)
            == PopulatedIn(front, attrs) + (if Lookup(attrs, last) != "" then {last} else {})
  {
    var order := front + [last];
    forall k ensures k in order <==> k in front || k == last {
      if k in order {
        var i :| 0 <= i < |order| && order[i] == k;
        if i < |front| {
          assert front[i] == k;
        }
      }
      if k in front {
        var i :| 0 <= i < |front| && front[i] == k;
        assert order[i] == k;
      }
    }
  }

  /** Over distinct keys, one write per populated key. */
  lemma {:induction false} WritesCount(order: seq<string>, attrs: map<string, string>)
    requires Distinct(order)
    ensures |Writes(order, attrs)| == |PopulatedIn(order, attrs)|
  {
    if |order| == 0 {
      assert PopulatedIn(order, attrs) == {};
    } else {
      var front := order[..|order| - 1];
      var last := order[|order| - 1];
      assert order == front + [last];
      assert Writes(order, attrs) == Writes(front, attrs) + Emitted(last, attrs);
      assert Distinct(front);
      WritesCount(front, attrs);
      PopulatedInStep(front, last, attrs);
      assert last !in front;
    }
  }

  /** The file holds one line per populated attribute, each the line of a
      populated attribute, whatever order the map is visited in. */
  lemma OneLinePerPopulatedAttribute(order: seq<string>, attrs: map<string, string>)
    requires Enumerates(order, attrs.Keys)
    ensures |Writes(order, attrs)| == |Populated(attrs)|
    ensures forall k :: k in Populated(attrs) ==> WriteVariable(k, attrs[k]) in Writes(order, attrs)
    ensures forall w :: w in Writes(order, attrs)
                        ==> exists k :: k in Populated(attrs) && w == WriteVariable(k, attrs[k])
  {
    WritesCount(order, attrs);
    assert PopulatedIn(order, attrs) == Populated(attrs);
    forall k | k in Populated(attrs)
      ensures WriteVariable(k, attrs[k]) in Writes(order, attrs)
    {
      WritesComplete(order, attrs, k);
    }
    forall w | w in Writes(order, attrs)
      ensures exists k :: k in Populated(attrs) && w == WriteVariable(k, attrs[k])
    {
      WritesSound(order, attrs, w);
    }
  }

  /** A write fails when the file is to be written and the failing write is
      one of the writes that are made: one per populated attribute. */
  predicate FailsWithin(path: string, attrs: map<string, string>, faults: AttrFaults) {
    && path != "" && !faults.mkdirFails && !faults.createFails
    && faults.failingWrite.Some? && faults.failingWrite.value < |Populated(attrs)|
  }

  /** Whether writing the attributes succeeds, exits or fails does not depend
      on the order in which the map is visited. */
  lemma AttrEffectStatus(path: string, attrs: map<string, string>, order: seq<string>,
                         faults: AttrFaults, files: Files)
    requires path != "" && !faults.mkdirFails && !faults.createFails ==> Enumerates(order, attrs.Keys)
    ensures var r := AttrEffect(path, attrs, order, faults, files);
            && (r.0 == AttrExit <==> path != "" && (faults.mkdirFails || faults.createFails))
            && (r.0 == AttrError <==> FailsWithin(path, attrs, faults))
            && (path != "" && r.0 != AttrExit ==> path in r.1)
  {
    if path != "" && !faults.mkdirFails && !faults.createFails {
      OneLinePerPopulatedAttribute(order, attrs);
    }
  }

  /** Removing the write of one key from the middle of an order. */
  lemma WritesSplitAt(o: seq<string>, j: nat, attrs: map<string, string>)
    requires j < |o|
    ensures multiset(Writes(o, attrs))
            == multiset(Writes(o[..j] + o[j + 1..], attrs)) + multiset(Emitted(o[j], attrs))
  {
    assert o == o[..j] + [o[j]] + o[j + 1..];
    WritesAppend(o[..j] + [o[j]], o[j + 1..], attrs);
    WritesStep(o[..j], o[j], attrs);
    WritesAppend(o[..j], o[j + 1..], attrs);
  }

  lemma DropLast(o: seq<string>)
    requires Distinct(o) && |o| > 0
    ensures Distinct(o[..|o| - 1])
    ensures forall k :: k in o[..|o| - 1] <==> k in o && k != o[|o| - 1]
  {
    var front := o[..|o| - 1];
    forall k ensures k in front <==> k in o && k != o[|o| - 1] {
      if k in front {
        var i :| 0 <= i < |front| && front[i] == k;
        assert o[i] == k;
      }
      if k in o && k != o[|o| - 1] {
        var i :| 0 <= i < |o| && o[i] == k;
        assert front[i] == k;
      }
    }
  }

  lemma RemoveAt(o: seq<string>, j: nat)
    requires Distinct(o) && j < |o|
    ensures Distinct(o[..j] + o[j + 1..])
    ensures forall k :: k in o[..j] + o[j + 1..] <==> k in o && k != o[j]
  {
    var rest := o[..j] + o[j + 1..];
    forall a | 0 <= a < |rest| ensures rest[a] == o[if a < j then a else a + 1] {
    }
    forall k ensures k in rest <==> k in o && k != o[j] {
      if k in rest {
        var a :| 0 <= a < |rest| && rest[a] == k;
      }
      if k in o && k != o[j] {
        var a :| 0 <= a < |o| && o[a] == k;
        assert rest[if a < j then a else a - 1] == k;
      }
    }
  }

  /** Two orders over the same keys write the same lines, up to their order. */
  lemma {:induction false} WritesPermutation(o1: seq<string>, o2: seq<string>, attrs: map<string, string>)
    requires Distinct(o1) && Distinct(o2)
    requires forall k :: k in o1 <==> k in o2
    ensures multiset(Writes(o1, attrs)) == multiset(Writes(o2, attrs))
    decreases |o1|
  {
    if |o1| == 0 {
      forall k ensures multiset(o2)[k] == 0 {
        assert k !in o1;
      }
      assert multiset(o2) == multiset{};
    } else {
      var key := o1[|o1| - 1];
      var front1 := o1[..|o1| - 1];
      assert key in o2 by {
        assert key in o1;
      }
      var j :| 0 <= j < |o2| && o2[j] == key;
      var rest2 := o2[..j] + o2[j + 1..];
      DropLast(o1);
      RemoveAt(o2, j);
      forall k ensures k in front1 <==> k in rest2 {
        assert k in o1 <==> k in o2;
      }
      WritesPermutation(front1, rest2, attrs);
      WritesSplitAt(o2, j, attrs);
      assert Writes(o1, attrs) == Writes(front1, attrs) + Emitted(key, attrs);
    }
  }

  /** Which lines the file holds depends only on the attributes. */
  lemma WritesOrderIndependent(o1: seq<string>, o2: seq<string>, attrs: map<string, string>)
    requires Enumerates(o1, attrs.Keys) && Enumerates(o2, attrs.Keys)
    ensures multiset(Writes(o1, attrs)) == multiset(Writes(o2, attrs))
  {
    WritesPermutation(o1, o2, attrs);
  }

  /** The attributes of the example below, visited in key order. */
  lemma ExampleWrites()
    ensures Writes(["A", "B", "C"], map["A" := "x", "B" := "", "C" := "y"])
            == ["COREOS_A=x\n", "COREOS_C=y\n"]
  {
    var attrs := map["A" := "x", "B" := "", "C" := "y"];
    assert Emitted("A", attrs) == ["COREOS_A=x\n"] by {
      assert Lookup(attrs, "A") == "x";
      assert WriteVariable("A", "x") == "COREOS_A=x\n";
    }
    assert Emitted("B", attrs) == [] by {
      assert Lookup(attrs, "B") == "";
    }
    assert Emitted("C", attrs) == ["COREOS_C=y\n"] by {
      assert Lookup(attrs, "C") == "y";
      assert WriteVariable("C", "y") == "COREOS_C=y\n";
    }
    WritesStep([], "A", attrs);
    assert [] + ["A"] == ["A"];
    WritesStep(["A"], "B", attrs);
    WritesStep(["A", "B"], "C", attrs);
  }

  /** The attributes `A=x`, `B=` and `C=y` give exactly the lines for `A`
      and `C`, in whichever order the map is visited. */
  lemma ExampleEmptyValueSkipped(order: seq<string>)
    requires Enumerates(order, {"A", "B", "C"})
    ensures multiset(Writes(order, map["A" := "x", "B" := "", "C" := "y"]))
            == multiset{"COREOS_A=x\n", "COREOS_C=y\n"}
  {
    var attrs := map["A" := "x", "B" := "", "C" := "y"];
    var canonical := ["A", "B", "C"];
    ExampleWrites();
    assert attrs.Keys == {"A", "B", "C"};
    assert Enumerates(canonical, attrs.Keys) by {
      assert "A" != "B" && "A" != "C" && "B" != "C";
    }
    WritesOrderIndependent(order, canonical, attrs);
  }

  /** The file at `path` is rewritten whole: what it held before does not
      matter, only the other files. */
  lemma RewritesWhole(path: string, attrs: map<string, string>, order: seq<string>, faults: AttrFaults,
                      files1: Files, files2: Files)
    requires path != "" && !faults.mkdirFails && !faults.createFails
    requires forall p :: p != path ==> (p in files1 <==> p in files2)
    requires forall p :: p != path && p in files1 ==> files1[p] == files2[p]
    ensures AttrEffect(path, attrs, order, faults, files1) == AttrEffect(path, attrs, order, faults, files2)
  {
    var ws := Writes(order, attrs);
    var n := faults.failingWrite;
    var content := if n.Some? && n.value < |ws| then Concat(ws[..n.value]) else Concat(ws);
    assert files1[path := content] == files2[path := content];
  }

  /** The file is truncated, not appended to: after a second run it holds
      what the second run alone would have left. */
  lemma SecondRunReplaces(path: string, attrs1: map<string, string>, order1: seq<string>, faults1: AttrFaults,
                          attrs2: map<string, string>, order2: seq<string>, faults2: AttrFaults, files: Files)
    requires path != "" && !faults2.mkdirFails && !faults2.createFails
    ensures AttrEffect(path, attrs2, order2, faults2, AttrEffect(path, attrs1, order1, faults1, files).1)
            == AttrEffect(path, attrs2, order2, faults2, files)
  {
    var between := AttrEffect(path, attrs1, order1, faults1, files).1;
    RewritesWhole(path, attrs2, order2, faults2, between, files);
  }
}
