/** String-to-string property maps shared by tiles, players and events
    (HasProperties.java): lookup with an error case and the hand-written
    JSON-like rendering. */
module Properties {
  import opened Wrappers
  import opened Seqs

  type PropertyMap = map<string, string>

  /** The `IllegalArgumentException` thrown for a missing property. */
  datatype PropertyError = NoSuchProperty(key: string)

  /** `hasProperty`. */
  function HasProperty(m: PropertyMap, key: string): bool
  {
    key in m
  }

  /** `getProperty`: the mapped value, or the missing-property exception. */
  function GetProperty(m: PropertyMap, key: string): (r: Result<string, PropertyError>)
    ensures r.Success? <==> HasProperty(m, key)
    ensures r.Success? ==> r.value == m[key]
    ensures r.Failure? ==> r.error == NoSuchProperty(key)
  {
    if key !in m then Failure(NoSuchProperty(key)) else Success(m[key])
  }

  /** One entry as `serializeProperties` writes it: the key quoted, the value raw. */
  function EntryText(key: string, value: string): (t: string)
    ensures |t| == |key| + |value| + 4
  {
    "\"" + key + "\": " + value
  }

  /** The entries in the map's iteration order `order`. */
  function Entries(m: PropertyMap, order: seq<string>): (es: seq<string>)
    requires forall k :: 0 <= k < |order| ==> order[k] in m
    ensures |es| == |order|
    ensures forall k :: 0 <= k < |order| ==> es[k] == EntryText(order[k], m[order[k]])
  {
    if order == [] then [] else Entries(m, order[..|order| - 1]) + [EntryText(order[|order| - 1], m[order[|order| - 1]])]
  }

  /** The stream's `reduce((s1, s2) -> s1 + "," + s2)`: empty for no parts,
      otherwise the parts joined by commas from the left. */
  function Reduce(parts: seq<string>): Option<string>
  {
    if parts == [] then None
    else match Reduce(parts[..|parts| - 1])
      case None => Some(parts[|parts| - 1])
      case Some(s) => Some(s + "," + parts[|parts| - 1])
  }

  /** Joining is associative: the commas fall between neighbouring parts
      wherever the sequence is cut. */
  lemma {:induction false} ReduceSplit(xs: seq<string>, ys: seq<string>)
    requires xs != [] && ys != []
    ensures Reduce(xs + ys) == Some(Reduce(xs).value + "," + Reduce(ys).value)
    decreases |ys|
  {
    assert Reduce(xs).Some? by { ReduceSome(xs); }
    var all := xs + ys;
    assert all[..|all| - 1] == xs + ys[..|ys| - 1];
    if |ys| == 1 {
      assert all[..|all| - 1] == xs;
    } else {
      var ys' := ys[..|ys| - 1];
      ReduceSplit(xs, ys');
      ReduceSome(ys');
      var a, b, c := Reduce(xs).value, Reduce(ys').value, ys[|ys| - 1];
      assert all[|all| - 1] == c;
      assert ys[..|ys| - 1] == ys';
      assert Reduce(all) == Some(Reduce(xs + ys').value + "," + c);
      assert Reduce(ys) == Some(b + "," + c);
      assert (a + "," + b) + "," + c == a + "," + (b + "," + c);
    }
  }

  lemma {:induction false} ReduceSome(xs: seq<string>)
    ensures Reduce(xs).Some? <==> xs != []
  {
  }

  /** The comma-joined entries between the braces. */
  function Joined(m: PropertyMap, order: seq<string>): string
    requires forall k :: 0 <= k < |order| ==> order[k] in m
  {
    match Reduce(Entries(m, order)) case None => "" case Some(s) => s
  }

  /** `serializeProperties`, with `order` the map's entry iteration order. */
  function Serialize(m: PropertyMap, order: seq<string>): string
    requires Enumerates(order, m.Keys)
  {
    "{" + Joined(m, order) + "}"
  }

  /** The empty map renders as "{}", and only the empty map does. */
  lemma SerializeEmpty(m: PropertyMap, order: seq<string>)
    requires Enumerates(order, m.Keys)
    ensures Serialize(m, order) == "{}" <==> m == map[]
  {
    if m != map[] {
      var k :| k in m;
      assert k in order;
      var es := Entries(m, order);
      assert |es[|es| - 1]| >= 4;
      assert |Joined(m, order)| >= 4 by {
        ReduceKeepsLast(es);
      }
      assert |Serialize(m, order)| == |Joined(m, order)| + 2;
    }
  }

  /** The joined text is at least as long as the last part. */
  lemma ReduceKeepsLast(xs: seq<string>)
    requires xs != []
    ensures Reduce(xs).Some? && |Reduce(xs).value| >= |xs[|xs| - 1]|
  {
  }

  /** A one-entry map renders as {"key": value}. */
  lemma SerializeSingle(key: string, value: string)
    ensures Serialize(map[key := value], [key]) == "{\"" + key + "\": " + value + "}"
  {
    var m := map[key := value];
    var e := EntryText(key, value);
    assert Joined(m, [key]) == e by {
      assert Entries(m, [key]) == [e];
      assert Reduce([e]) == Some(e);
    }
    assert "{" + e + "}" == "{\"" + key + "\": " + value + "}" by {
      Regroup4("{", "\"", key, "\": ", value, "}");
      assert "{" + "\"" == "{\"";
    }
  }

  lemma Regroup4<T>(open: seq<T>, a: seq<T>, b: seq<T>, c: seq<T>, d: seq<T>, close: seq<T>)
    ensures open + (a + b + c + d) + close == open + a + b + c + d + close
  {
  }

  /** Rendering the entries in the order `xs` then `ys` puts exactly one
      comma between the rendering of the `xs` entries and that of the `ys` entries. */
  lemma SerializeConcatenates(m: PropertyMap, xs: seq<string>, ys: seq<string>)
    requires Enumerates(xs + ys, m.Keys) && xs != [] && ys != []
    requires forall k :: 0 <= k < |xs| ==> xs[k] in m
    requires forall k :: 0 <= k < |ys| ==> ys[k] in m
    ensures Serialize(m, xs + ys) == "{" + Joined(m, xs) + "," + Joined(m, ys) + "}"
  {
    var a, b := Joined(m, xs), Joined(m, ys);
    assert Joined(m, xs + ys) == a + "," + b by {
      JoinedConcatenates(m, xs, ys);
    }
    assert "{" + (a + "," + b) + "}" == "{" + a + "," + b + "}" by {
      Regroup("{", a, ",", b, "}");
    }
  }

  lemma Regroup<T>(open: seq<T>, a: seq<T>, sep: seq<T>, b: seq<T>, close: seq<T>)
    ensures open + (a + sep + b) + close == open + a + sep + b + close
  {
  }

  lemma JoinedConcatenates(m: PropertyMap, xs: seq<string>, ys: seq<string>)
    requires xs != [] && ys != []
    requires forall k :: 0 <= k < |xs| ==> xs[k] in m
    requires forall k :: 0 <= k < |ys| ==> ys[k] in m
    ensures forall k :: 0 <= k < |xs + ys| ==> (xs + ys)[k] in m
    ensures Joined(m, xs + ys) == Joined(m, xs) + "," + Joined(m, ys)
  {
    EntriesAppend(m, xs, ys);
    ReduceSome(Entries(m, xs));
    ReduceSome(Entries(m, ys));
    ReduceSplit(Entries(m, xs), Entries(m, ys));
  }

  lemma EntriesAppend(m: PropertyMap, xs: seq<string>, ys: seq<string>)
    requires forall k :: 0 <= k < |xs| ==> xs[k] in m
    requires forall k :: 0 <= k < |ys| ==> ys[k] in m
    ensures forall k :: 0 <= k < |xs + ys| ==> (xs + ys)[k] in m
    ensures Entries(m, xs + ys) == Entries(m, xs) + Entries(m, ys)
  {
    var all := xs + ys;
    assert forall k :: 0 <= k < |all| ==> all[k] in m by {
      forall k | 0 <= k < |all| ensures all[k] in m {
        if k < |xs| { assert all[k] == xs[k]; } else { assert all[k] == ys[k - |xs|]; }
      }
    }
    var l := Entries(m, all);
    var r := Entries(m, xs) + Entries(m, ys);
    forall k | 0 <= k < |l| ensures l[k] == r[k] {
      if k < |xs| { assert all[k] == xs[k]; } else { assert all[k] == ys[k - |xs|]; }
    }
  }
}
