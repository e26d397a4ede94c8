/**
 * The outlink filter of `findOutlinks` and `getOutlinks` (Crawler.js lines 145-155 and
 * 364-368): the outlinks go into a `Set`, which keeps each one once in first-occurrence order,
 * and those already visited are dropped.
 */
module Outlinks {
  import opened Js
  import opened Sequences

  /** `(link) => !visited.has(link)`. */
  function NotVisited(visited: seq<JsValue>): string -> bool
  {
    (x: string) => Str(x) !in visited
  }

  /** `[...new Set(links)].filter((link) => !visited.has(link))`. */
  function Unvisited(links: seq<string>, visited: seq<JsValue>): seq<string>
  {
    Filter(Dedup(links), NotVisited(visited))
  }

  /** The outlinks left to crawl: each once, none visited, every unvisited outlink present, in
      the order of first occurrence. */
  lemma UnvisitedSpec(links: seq<string>, visited: seq<JsValue>)
    ensures NoDuplicates(Unvisited(links, visited))
    ensures forall x :: x in Unvisited(links, visited) <==> x in links && Str(x) !in visited
    ensures forall i, j :: 0 <= i < j < |Unvisited(links, visited)| ==>
      IndexOf(links, Unvisited(links, visited)[i]) < IndexOf(links, Unvisited(links, visited)[j])
  {
    var d := Dedup(links);
    var p := NotVisited(visited);
    var u := Filter(d, p);
    DedupSpec(links);
    FilterDistinct(d, p);
    FilterOrder(d, p);
    forall x | x in links && Str(x) !in visited
      ensures x in u
    {
      assert x in d;
      var k := IndexOf(d, x);
      assert p(d[k]);
    }
    forall i, j | 0 <= i < j < |u|
      ensures IndexOf(links, u[i]) < IndexOf(links, u[j])
    {
      assert u[i] in d && u[j] in d;
      var a, b := IndexOf(d, u[i]), IndexOf(d, u[j]);
      assert a < b;
      assert d[a] == u[i] && d[b] == u[j];
    }
  }

  /** `set.delete(v)`: the outlinks other than `v`. */
  function Delete(unique: seq<string>, v: JsValue): (r: seq<string>)
    ensures forall x :: x in r <==> x in unique && Str(x) != v
  {
    if |unique| == 0 then []
    else (if Str(unique[0]) == v then [] else [unique[0]]) + Delete(unique[1..], v)
  }

  /** The outlinks none of whose values occur in `vs`. */
  function Without(unique: seq<string>, vs: seq<JsValue>): seq<string>
  {
    if |unique| == 0 then []
    else (if Str(unique[0]) in vs then [] else [unique[0]]) + Without(unique[1..], vs)
  }

  /** Deleting one more visited id is filtering against one more visited id. */
  lemma {:induction false} DeleteWithout(unique: seq<string>, vs: seq<JsValue>, v: JsValue)
    ensures Delete(Without(unique, vs), v) == Without(unique, vs + [v])
    decreases |unique|
  {
    if |unique| > 0 {
      DeleteWithout(unique[1..], vs, v);
      var w := Without(unique[1..], vs);
      assert Str(unique[0]) in vs + [v] <==> Str(unique[0]) in vs || Str(unique[0]) == v;
      if Str(unique[0]) !in vs {
        assert Without(unique, vs) == [unique[0]] + w;
        assert Delete([unique[0]] + w, v) == (if Str(unique[0]) == v then [] else [unique[0]]) + Delete(w, v) by {
          assert ([unique[0]] + w)[1..] == w;
        }
      } else {
        assert Without(unique, vs) == w;
        assert Without(unique, vs + [v]) == Without(unique[1..], vs + [v]);
      }
    }
  }

  lemma {:induction false} WithoutIsFilter(unique: seq<string>, vs: seq<JsValue>)
    ensures Without(unique, vs) == Filter(unique, NotVisited(vs))
    decreases |unique|
  {
    if |unique| > 0 {
      WithoutIsFilter(unique[1..], vs);
    }
  }

  lemma {:induction false} WithoutNothing(unique: seq<string>)
    ensures Without(unique, []) == unique
    decreases |unique|
  {
    if |unique| > 0 {
      WithoutNothing(unique[1..]);
    }
  }
}
