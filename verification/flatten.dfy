/** The key walk of the translation validator: a parsed locale document is
    flattened into the dot-joined paths of its leaves (`getAllKeys`). */
module Flatten {

  /** A parsed JSON value as the walk sees it. Only objects are descended into;
      strings, numbers and booleans (`Leaf`), arrays (whatever they hold) and
      `null` each end a path. */
  datatype Node =
    | Leaf
    | Arr(items: seq<Node>)
    | Null
    | Obj(entries: seq<Entry>)

  /** One own property of an object. */
  datatype Entry = Entry(key: string, value: Node)

  /** The top-level object of a locale file: its entries in `for...in` order. */
  type Document = seq<Entry>

  /** JSON.parse keeps one value per key, so every object has distinct keys. */
  predicate DistinctKeys(entries: Document) {
    forall i, j :: 0 <= i < j < |entries| ==> entries[i].key != entries[j].key
  }

  predicate WellFormed(entries: Document)
    decreases entries
  {
    && DistinctKeys(entries)
    && forall i :: 0 <= i < |entries| ==>
         (entries[i].value.Obj? ==> WellFormed(entries[i].value.entries))
  }

  /** `prefix ? prefix + "." + key : key`: an empty prefix is falsy. */
  function Join(prefix: string, key: string): string {
    if prefix == [] then key else prefix + "." + key
  }

  /** `s` begins with `p`. */
  predicate StartsWith(s: string, p: string) {
    |p| <= |s| && s[..|p|] == p
  }

  /** The keys one entry contributes: an object's own keys under its path, any
      other value its path alone. */
  function ValueKeys(value: Node, fullKey: string): seq<string>
    decreases value, 0
  {
    if value.Obj? then GetAllKeys(value.entries, fullKey) else [fullKey]
  }

  /** `getAllKeys(obj, prefix)`: every key recorded under a non-empty prefix
      extends that prefix by a dot. */
  function GetAllKeys(entries: Document, prefix: string): (keys: seq<string>)
    ensures prefix != [] ==> forall k :: k in keys ==> StartsWith(k, prefix + ".")
    decreases entries, 1
  {
    if entries == [] then []
    else
      var fullKey := Join(prefix, entries[0].key);
      var first := ValueKeys(entries[0].value, fullKey);
      var rest := GetAllKeys(entries[1..], prefix);
      assert prefix != [] ==> forall k :: k in first ==> StartsWith(k, prefix + ".") by {
        if prefix != [] {
          forall k | k in first ensures StartsWith(k, prefix + ".") {
            assert StartsWith(fullKey, prefix + ".");
            if entries[0].value.Obj? {
              assert StartsWith(k, fullKey + ".");
              assert k[..|prefix + "."|] == fullKey[..|prefix + "."|];
            }
          }
        }
      }
      first + rest
  }

  // ---------------------------------------------------------------------------
  // The walk against an independent description of the document's leaves
  // ---------------------------------------------------------------------------

  /** `path` leads from the root through objects to a value that is not an object. */
  ghost predicate LeafAt(entries: Document, path: seq<string>)
    decreases entries
  {
    && |path| > 0
    && exists i :: 0 <= i < |entries| && entries[i].key == path[0] &&
         if |path| == 1 then !entries[i].value.Obj?
         else entries[i].value.Obj? && LeafAt(entries[i].value.entries, path[1..])
  }

  /** The key the walk writes for `path` when it starts at `prefix`. */
  function JoinPath(prefix: string, path: seq<string>): string
    decreases |path|
  {
    if path == [] then prefix else JoinPath(Join(prefix, path[0]), path[1..])
  }

  /** Number of non-object values reachable through objects. */
  function LeafCount(entries: Document): nat
    decreases entries
  {
    if entries == [] then 0
    else (if entries[0].value.Obj? then LeafCount(entries[0].value.entries) else 1) + LeafCount(entries[1..])
  }

  /** Concatenating documents concatenates their keys. */
  lemma {:induction false} GetAllKeysAppend(a: Document, b: Document, prefix: string)
    ensures GetAllKeys(a + b, prefix) == GetAllKeys(a, prefix) + GetAllKeys(b, prefix)
    decreases a
  {
    if a != [] {
      assert (a + b)[0] == a[0] && (a + b)[1..] == a[1..] + b;
      GetAllKeysAppend(a[1..], b, prefix);
    } else {
      assert a + b == b;
    }
  }

  /** A key is produced exactly when some entry produces it. */
  lemma {:induction false} KeyFromEntry(entries: Document, prefix: string, k: string)
    ensures k in GetAllKeys(entries, prefix) <==>
      exists i :: 0 <= i < |entries| && k in ValueKeys(entries[i].value, Join(prefix, entries[i].key))
    decreases entries
  {
    if entries != [] {
      KeyFromEntry(entries[1..], prefix, k);
      if k in GetAllKeys(entries[1..], prefix) {
        var i :| 0 <= i < |entries[1..]| && k in ValueKeys(entries[1..][i].value, Join(prefix, entries[1..][i].key));
        assert entries[i + 1] == entries[1..][i];
      }
      if exists i :: 0 <= i < |entries| && k in ValueKeys(entries[i].value, Join(prefix, entries[i].key)) {
        var i :| 0 <= i < |entries| && k in ValueKeys(entries[i].value, Join(prefix, entries[i].key));
        if i > 0 {
          assert entries[1..][i - 1] == entries[i];
        }
      }
    }
  }

  /** Soundness: every key names a leaf, reached by a path of existing keys. */
  lemma {:induction false} KeysAreLeafPaths(entries: Document, prefix: string, k: string)
    requires k in GetAllKeys(entries, prefix)
    ensures exists path :: LeafAt(entries, path) && JoinPath(prefix, path) == k
    decreases entries
  {
    KeyFromEntry(entries, prefix, k);
    var i :| 0 <= i < |entries| && k in ValueKeys(entries[i].value, Join(prefix, entries[i].key));
    var key, v := entries[i].key, entries[i].value;
    if v.Obj? {
      KeysAreLeafPaths(v.entries, Join(prefix, key), k);
      var path :| LeafAt(v.entries, path) && JoinPath(Join(prefix, key), path) == k;
      var full := [key] + path;
      assert full[0] == key && full[1..] == path;
      assert LeafAt(entries, full);
      assert JoinPath(prefix, full) == k;
    } else {
      var full := [key];
      assert full[1..] == [];
      assert LeafAt(entries, full);
      assert JoinPath(prefix, full) == k;
    }
  }

  /** Completeness: every leaf's path appears among the keys. */
  lemma {:induction false} LeafPathsAreKeys(entries: Document, prefix: string, path: seq<string>)
    requires LeafAt(entries, path)
    ensures JoinPath(prefix, path) in GetAllKeys(entries, prefix)
    decreases entries
  {
    var i :| 0 <= i < |entries| && entries[i].key == path[0] &&
      if |path| == 1 then !entries[i].value.Obj?
      else entries[i].value.Obj? && LeafAt(entries[i].value.entries, path[1..]);
    var fullKey := Join(prefix, path[0]);
    assert JoinPath(prefix, path) == JoinPath(fullKey, path[1..]);
    if |path| > 1 {
      LeafPathsAreKeys(entries[i].value.entries, fullKey, path[1..]);
    }
    KeyFromEntry(entries, prefix, JoinPath(prefix, path));
  }

  /** The walk yields one key per leaf, whatever the prefix, duplicates included. */
  lemma {:induction false} KeyCountIsLeafCount(entries: Document, prefix: string)
    ensures |GetAllKeys(entries, prefix)| == LeafCount(entries)
    decreases entries
  {
    if entries != [] {
      if entries[0].value.Obj? {
        KeyCountIsLeafCount(entries[0].value.entries, Join(prefix, entries[0].key));
      }
      KeyCountIsLeafCount(entries[1..], prefix);
    }
  }

  /** An empty object contributes no key, neither for itself nor below it. */
  lemma EmptyObjectContributesNothing(entries: Document, prefix: string, i: nat)
    requires i < |entries| && entries[i].value == Obj([])
    ensures GetAllKeys(entries, prefix) == GetAllKeys(entries[..i] + entries[i + 1..], prefix)
  {
    assert entries == entries[..i] + ([entries[i]] + entries[i + 1..]);
    GetAllKeysAppend(entries[..i], [entries[i]] + entries[i + 1..], prefix);
    GetAllKeysAppend(entries[..i], entries[i + 1..], prefix);
  }

  /** An array, `null` or scalar contributes exactly its own path, and an array is
      never looked into, whatever its elements. */
  lemma NonObjectContributesItsPath(entries: Document, prefix: string, i: nat)
    requires i < |entries| && !entries[i].value.Obj?
    ensures GetAllKeys(entries, prefix) ==
      GetAllKeys(entries[..i], prefix) + [Join(prefix, entries[i].key)] + GetAllKeys(entries[i + 1..], prefix)
  {
    assert entries == entries[..i] + ([entries[i]] + entries[i + 1..]);
    GetAllKeysAppend(entries[..i], [entries[i]] + entries[i + 1..], prefix);
    assert ([entries[i]] + entries[i + 1..])[1..] == entries[i + 1..];
  }

  /** A nested object contributes, in place, the walk of its own entries under its
      path: the recursion `getAllKeys(obj[key], fullKey)`. */
  lemma ObjectContributesItsWalk(entries: Document, prefix: string, i: nat)
    requires i < |entries| && entries[i].value.Obj?
    ensures GetAllKeys(entries, prefix) ==
      GetAllKeys(entries[..i], prefix)
      + GetAllKeys(entries[i].value.entries, Join(prefix, entries[i].key))
      + GetAllKeys(entries[i + 1..], prefix)
  {
    assert entries == entries[..i] + ([entries[i]] + entries[i + 1..]);
    GetAllKeysAppend(entries[..i], [entries[i]] + entries[i + 1..], prefix);
    assert ([entries[i]] + entries[i + 1..])[1..] == entries[i + 1..];
  }

  /** A key that itself contains a dot collides with a nested path: a well-formed
      document can yield the same key twice, so the walk's result is a list. */
  lemma DottedKeyCollides()
    ensures var doc := [Entry("a.b", Leaf), Entry("a", Obj([Entry("b", Leaf)]))];
      WellFormed(doc) && GetAllKeys(doc, "") == ["a.b", "a.b"]
  {
    var doc := [Entry("a.b", Leaf), Entry("a", Obj([Entry("b", Leaf)]))];
    assert doc[1].value.entries[1..] == [];
    assert Join("a", "b") == "a.b";
    assert GetAllKeys(doc[1].value.entries, "a") == ["a.b"];
    assert doc[1..][1..] == [];
  }

  /** An empty key keeps the prefix empty, so its children surface at the top level. */
  lemma EmptyKeyIsTransparent()
    ensures GetAllKeys([Entry("", Obj([Entry("a", Leaf)]))], "") == ["a"]
  {
    var doc := [Entry("", Obj([Entry("a", Leaf)]))];
    assert doc[0].value.entries[1..] == [];
    assert doc[1..] == [];
  }
}
