/**
 * The document store that the HTTPSidebar macro tests substitute for the real one:
 * `findByURL` and `findChildren` answered from a fixture of documents keyed by
 * lower-case URL. The fixture is given as its entries in iteration order.
 */
module DocumentFixture {
  import opened Wrappers
  import opened Strings

  /** One fixture document, with the fields the mocks read. */
  datatype Entry = Entry(url: string, title: string, locale: string, summary: string, slug: string, tags: seq<string>)

  datatype DocMetadata = DocMetadata(title: string, locale: string, summary: string, slug: string, tags: seq<string>)

  /** The record the mocks return: the URL and, under `metadata`, the other fields. */
  datatype Document = Document(url: string, metadata: DocMetadata)

  /** `Object.entries(fixtureData)`: the keys, each with its document, in order. */
  type Fixture = seq<(string, Entry)>

  /** The keys of a JSON object are distinct. */
  predicate KeysDistinct(f: Fixture) {
    forall i, j :: 0 <= i < j < |f| ==> f[i].0 != f[j].0
  }

  predicate HasKey(f: Fixture, key: string) {
    exists i :: 0 <= i < |f| && f[i].0 == key
  }

  /** The record built from a fixture entry; every field is copied unchanged. */
  function Reshape(e: Entry): (d: Document)
    ensures d.url == e.url
    ensures d.metadata.title == e.title && d.metadata.locale == e.locale && d.metadata.summary == e.summary
    ensures d.metadata.slug == e.slug && d.metadata.tags == e.tags
  {
    Document(e.url, DocMetadata(e.title, e.locale, e.summary, e.slug, e.tags))
  }

  /** Reshaping loses nothing: different entries give different records. */
  lemma ReshapeInjective(a: Entry, b: Entry)
    requires Reshape(a) == Reshape(b)
    ensures a == b
  {
  }

  /** `fixtureData[key]`: the entry stored under the key, if any. */
  function Lookup(f: Fixture, key: string): (r: Option<Entry>)
    ensures r.None? <==> !HasKey(f, key)
    ensures r.Some? ==> exists i :: 0 <= i < |f| && f[i].0 == key && f[i].1 == r.value
  {
    if f == [] then None
    else if f[0].0 == key then Some(f[0].1)
    else
      var r := Lookup(f[1..], key);
      assert HasKey(f, key) ==> HasKey(f[1..], key) by {
        if HasKey(f, key) {
          var i :| 0 <= i < |f| && f[i].0 == key;
          assert f[1..][i - 1] == f[i];
        }
      }
      assert r.Some? ==> exists i :: 0 <= i < |f| && f[i].0 == key && f[i].1 == r.value by {
        if r.Some? {
          var i :| 0 <= i < |f[1..]| && f[1..][i].0 == key && f[1..][i].1 == r.value;
          assert f[i + 1] == f[1..][i];
        }
      }
      r
  }

  /** With distinct keys, the entry at any position is what its key looks up. */
  lemma LookupAt(f: Fixture, i: int)
    requires KeysDistinct(f) && 0 <= i < |f|
    ensures Lookup(f, f[i].0) == Some(f[i].1)
  {
  }

  /**
   * `findByURL(url)`: the document under `url.toLowerCase()`, or `null` when there is
   * none.
   */
  function FindByURL(f: Fixture, url: string): (r: Option<Document>)
    ensures r.None? <==> !HasKey(f, Lower(url))
    ensures r.Some? ==> exists i :: 0 <= i < |f| && f[i].0 == Lower(url) && r.value == Reshape(f[i].1)
  {
    match Lookup(f, Lower(url))
    case None => None
    case Some(data) => Some(Reshape(data))
  }

  /** The lookup ignores the case of the URL asked for. */
  lemma FindByURLCaseInsensitive(f: Fixture, u: string, v: string)
    requires Lower(u) == Lower(v)
    ensures FindByURL(f, u) == FindByURL(f, v)
  {
  }

  /** Every lower-case key is found, whatever the case it is asked for in. */
  lemma FindByURLFindsKey(f: Fixture, i: int, url: string)
    requires KeysDistinct(f) && 0 <= i < |f| && IsLower(f[i].0)
    requires Lower(url) == Lower(f[i].0)
    ensures FindByURL(f, url) == Some(Reshape(f[i].1))
  {
    LowerOfLower(f[i].0);
    LookupAt(f, i);
  }

  /**
   * The test `findChildren` applies to a key: after the first occurrence of
   * `url.toLowerCase() + "/"` is taken out, no `/` is left.
   */
  predicate IsChildKey(key: string, url: string): (b: bool)
    ensures '/' !in key ==> b
  {
    RemoveFirstChars(key, Lower(url) + "/", '/');
    '/' !in RemoveFirst(key, Lower(url) + "/")
  }

  /** The reference result of `findChildren`: the matching entries, reshaped, in order. */
  function Children(f: Fixture, url: string): (r: seq<Document>)
    ensures |r| <= |f|
  {
    if f == [] then []
    else
      var last := f[|f| - 1];
      Children(f[..|f| - 1], url) + (if IsChildKey(last.0, url) then [Reshape(last.1)] else [])
  }

  /** `findChildren(url)`: a loop over the fixture that pushes each matching entry. */
  method FindChildren(f: Fixture, url: string) returns (result: seq<Document>)
    ensures result == Children(f, url)
  {
    result := [];
    var parent := Lower(url) + "/";
    for i := 0 to |f|
      invariant result == Children(f[..i], url)
    {
      var (key, data) := f[i];
      if '/' !in RemoveFirst(key, parent) {
        // the source evaluates this replacement a second time and drops its value
        var discarded := RemoveFirst(key, Lower(url) + "/");
        result := result + [Reshape(data)];
      }
      assert f[..i + 1][..i] == f[..i];
    }
    assert f[..|f|] == f;
  }

  /** The result for a concatenated fixture is the two results one after the other. */
  lemma {:induction false} ChildrenAppend(a: Fixture, b: Fixture, url: string)
    ensures Children(a + b, url) == Children(a, url) + Children(b, url)
    decreases |b|
  {
    if b == [] {
      assert a + b == a;
    } else {
      assert (a + b)[..|a + b| - 1] == a + b[..|b| - 1];
      ChildrenAppend(a, b[..|b| - 1], url);
    }
  }

  /** Entry `i` of the fixture passes the test and reshapes to `d`. */
  predicate ChildAt(f: Fixture, i: int, url: string, d: Document) {
    0 <= i < |f| && IsChildKey(f[i].0, url) && d == Reshape(f[i].1)
  }

  /** The result is empty, never `null`, exactly when no key passes the test. */
  lemma {:induction false} ChildrenEmpty(f: Fixture, url: string)
    ensures Children(f, url) == [] <==> forall i :: 0 <= i < |f| ==> !IsChildKey(f[i].0, url)
  {
    if f != [] {
      var init := f[..|f| - 1];
      ChildrenEmpty(init, url);
      assert forall i :: 0 <= i < |init| ==> init[i] == f[i];
    }
  }

  /** When every key passes, there is one record per entry. */
  lemma {:induction false} ChildrenAllPass(f: Fixture, url: string)
    requires forall i :: 0 <= i < |f| ==> IsChildKey(f[i].0, url)
    ensures |Children(f, url)| == |f|
  {
    if f != [] {
      var init := f[..|f| - 1];
      assert forall i :: 0 <= i < |init| ==> init[i] == f[i];
      ChildrenAllPass(init, url);
    }
  }

  /** A document is in the result exactly when some matching entry reshapes to it. */
  lemma {:induction false} ChildrenMembership(f: Fixture, url: string, d: Document)
    ensures d in Children(f, url) <==> exists i :: ChildAt(f, i, url, d)
  {
    if f != [] {
      var init, last := f[..|f| - 1], f[|f| - 1];
      ChildrenMembership(init, url, d);
      var prev := Children(init, url);
      var tail: seq<Document> := if IsChildKey(last.0, url) then [Reshape(last.1)] else [];
      assert Children(f, url) == prev + tail;
      if d in prev {
        var i :| ChildAt(init, i, url, d);
        assert init[i] == f[i] && ChildAt(f, i, url, d);
      } else if d in tail {
        assert ChildAt(f, |f| - 1, url, d);
      } else {
        forall i | 0 <= i < |f| ensures !ChildAt(f, i, url, d) {
          if i < |f| - 1 {
            assert init[i] == f[i] && !ChildAt(init, i, url, d);
          }
        }
      }
    }
  }

  /** `findChildren` also ignores the case of the URL asked for. */
  lemma {:induction false} ChildrenCaseInsensitive(f: Fixture, u: string, v: string)
    requires Lower(u) == Lower(v)
    ensures Children(f, u) == Children(f, v)
  {
    if f != [] {
      ChildrenCaseInsensitive(f[..|f| - 1], u, v);
    }
  }

  /**
   * The key of the document itself lacks the trailing `/`, so nothing is removed from
   * it: it is kept only when it has no `/` at all.
   */
  lemma SelfKey(url: string)
    ensures IsChildKey(Lower(url), url) <==> '/' !in Lower(url)
  {
    RemoveFirstLonger(Lower(url), Lower(url) + "/");
  }

  /** A key one segment below the URL is kept. */
  lemma ImmediateChildKey(url: string, segment: string)
    requires '/' !in segment
    ensures IsChildKey(Lower(url) + "/" + segment, url)
  {
  }

  /** A key two or more segments below the URL is dropped. */
  lemma DeeperKey(url: string, a: string, b: string)
    ensures !IsChildKey(Lower(url) + "/" + a + "/" + b, url)
  {
    var parent := Lower(url) + "/";
    var key := parent + a + "/" + b;
    assert key[..|parent|] == parent;
    assert RemoveFirst(key, parent) == a + "/" + b;
    assert (a + "/" + b)[|a|] == '/';
  }

  /**
   * The test does not ask for the parent to be a prefix: a key that holds the parent
   * in its middle passes too.
   */
  lemma NotOnlyPrefixes()
    ensures IsChildKey("en-us/docs/b", "/Docs")
  {
    var key: string := "en-us/docs/b";
    var parent := Lower("/Docs") + "/";
    assert parent == "/docs/";
    assert OccursAt(key, parent, 5) by {
      assert key[5..11] == "/docs/";
    }
    forall i: nat | i < 5 ensures !OccursAt(key, parent, i) {
      assert key[i] != '/';
    }
    RemoveFirstAt(key, parent, 5);
    assert RemoveFirst(key, parent) == "en-usb";
  }
}
