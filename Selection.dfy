/**
 * The chunk selector: `pick_relevant_chunks(notes_text, question, top_k=3)` chunks the notes
 * with the default sizes, sorts the chunks with Python's stable `sorted(..., key=score,
 * reverse=True)` and keeps `ranked[:top_k]`.
 */
module Selection {
  import opened PyStr
  import Chunking
  import Scoring

  /** Non-increasing keys from left to right. */
  ghost predicate SortedDesc<T>(s: seq<T>, key: T -> int)
  {
    forall i, j :: 0 <= i < j < |s| ==> key(s[i]) >= key(s[j])
  }

  /** The elements of `s` whose key is `v`, in their order in `s`. */
  function WithKey<T>(s: seq<T>, key: T -> int, v: int): seq<T>
  {
    if s == [] then []
    else (if key(s[0]) == v then [s[0]] else []) + WithKey(s[1..], key, v)
  }

  /** Places `x` in front of the first element whose key is not larger than its own. */
  function InsertByKey<T>(x: T, s: seq<T>, key: T -> int): (r: seq<T>)
    ensures |r| == |s| + 1
  {
    if s == [] || key(s[0]) <= key(x) then [x] + s
    else [s[0]] + InsertByKey(x, s[1..], key)
  }

  /** `sorted(s, key=key, reverse=True)`: an insertion sort that keeps equal keys in their order. */
  function SortByKeyDesc<T>(s: seq<T>, key: T -> int): (r: seq<T>)
    ensures |r| == |s|
  {
    if s == [] then [] else InsertByKey(s[0], SortByKeyDesc(s[1..], key), key)
  }

  lemma {:induction false} InsertByKeyKeepsElements<T>(x: T, s: seq<T>, key: T -> int)
    ensures multiset(InsertByKey(x, s, key)) == multiset([x]) + multiset(s)
  {
    if s != [] && key(s[0]) > key(x) {
      InsertByKeyKeepsElements(x, s[1..], key);
      assert s == [s[0]] + s[1..];
    }
  }

  lemma {:induction false} InsertByKeyKeepsKeyOrder<T>(x: T, s: seq<T>, key: T -> int, v: int)
    ensures WithKey(InsertByKey(x, s, key), key, v) == (if key(x) == v then [x] else []) + WithKey(s, key, v)
  {
    var r := InsertByKey(x, s, key);
    if s == [] || key(s[0]) <= key(x) {
      assert r[1..] == s;
    } else {
      InsertByKeyKeepsKeyOrder(x, s[1..], key, v);
      assert r[1..] == InsertByKey(x, s[1..], key);
    }
  }

  /** Inserting an element no larger than a bound into elements no larger than it stays under the bound. */
  lemma {:induction false} InsertByKeyBounded<T>(x: T, s: seq<T>, key: T -> int, bound: int)
    requires key(x) <= bound && forall i :: 0 <= i < |s| ==> key(s[i]) <= bound
    ensures forall i :: 0 <= i < |InsertByKey(x, s, key)| ==> key(InsertByKey(x, s, key)[i]) <= bound
  {
    var r := InsertByKey(x, s, key);
    if s != [] && key(s[0]) > key(x) {
      InsertByKeyBounded(x, s[1..], key, bound);
      var r' := InsertByKey(x, s[1..], key);
      assert r == [s[0]] + r';
      forall i | 0 < i < |r| ensures key(r[i]) <= bound {
        assert r[i] == r'[i - 1];
      }
    } else {
      assert r == [x] + s;
      forall i | 0 < i < |r| ensures key(r[i]) <= bound {
        assert r[i] == s[i - 1];
      }
    }
  }

  lemma {:induction false} InsertByKeyKeepsSorted<T>(x: T, s: seq<T>, key: T -> int)
    requires SortedDesc(s, key)
    ensures SortedDesc(InsertByKey(x, s, key), key)
  {
    var r := InsertByKey(x, s, key);
    if s != [] && key(s[0]) > key(x) {
      var r' := InsertByKey(x, s[1..], key);
      SortedDescTail(s, key);
      InsertByKeyKeepsSorted(x, s[1..], key);
      forall i | 0 <= i < |s[1..]| ensures key(s[1..][i]) <= key(s[0]) {
        assert s[1..][i] == s[i + 1];
      }
      InsertByKeyBounded(x, s[1..], key, key(s[0]));
      assert r == [s[0]] + r';
      forall i, j | 0 <= i < j < |r| ensures key(r[i]) >= key(r[j]) {
        assert r[j] == r'[j - 1];
        if 0 < i {
          assert r[i] == r'[i - 1];
        }
      }
    } else {
      assert r == [x] + s;
      forall i, j | 0 <= i < j < |r| ensures key(r[i]) >= key(r[j]) {
        assert r[j] == s[j - 1];
        if 0 < i {
          assert r[i] == s[i - 1];
        }
      }
    }
  }

  /**
   * The sort puts keys in non-increasing order, keeps every element exactly as often as it was
   * given, and keeps the elements of each key in their original order (stability).
   */
  lemma {:induction false} SortByKeyDescFacts<T>(s: seq<T>, key: T -> int)
    ensures SortedDesc(SortByKeyDesc(s, key), key)
    ensures multiset(SortByKeyDesc(s, key)) == multiset(s)
    ensures forall v :: WithKey(SortByKeyDesc(s, key), key, v) == WithKey(s, key, v)
  {
    if s != [] {
      var rest := SortByKeyDesc(s[1..], key);
      SortByKeyDescFacts(s[1..], key);
      InsertByKeyKeepsSorted(s[0], rest, key);
      InsertByKeyKeepsElements(s[0], rest, key);
      assert s == [s[0]] + s[1..];
      forall v ensures WithKey(SortByKeyDesc(s, key), key, v) == WithKey(s, key, v) {
        InsertByKeyKeepsKeyOrder(s[0], rest, key, v);
      }
    }
  }

  lemma {:induction false} InWithKey<T>(s: seq<T>, key: T -> int, x: T)
    ensures x in s <==> x in WithKey(s, key, key(x))
  {
    if s != [] {
      InWithKey(s[1..], key, x);
      assert s == [s[0]] + s[1..];
    }
  }

  /**
   * Sortedness and stability pin the order down: a sequence that is sorted by non-increasing
   * key and holds, for every key, the same elements in the same order as the sort's result IS
   * that result. So `SortByKeyDesc` is exactly Python's stable `sorted(..., reverse=True)`.
   */
  lemma {:induction false} StableSortIsUnique<T>(a: seq<T>, b: seq<T>, key: T -> int)
    requires SortedDesc(a, key) && SortedDesc(b, key)
    requires forall v :: WithKey(a, key, v) == WithKey(b, key, v)
    ensures a == b
    decreases |a| + |b|
  {
    if a == [] || b == [] {
      if a != [] {
        InWithKey(a, key, a[0]);
      } else if b != [] {
        InWithKey(b, key, b[0]);
      }
    } else {
      HeadKeysAgree(a, b, key);
      TailsAgree(a, b, key);
      SortedDescTail(a, key);
      SortedDescTail(b, key);
      StableSortIsUnique(a[1..], b[1..], key);
      assert a == [a[0]] + a[1..] && b == [b[0]] + b[1..];
    }
  }

  /** Two sorted sequences with the same elements per key start with the same key. */
  lemma HeadKeysAgree<T>(a: seq<T>, b: seq<T>, key: T -> int)
    requires a != [] && b != []
    requires SortedDesc(a, key) && SortedDesc(b, key)
    requires forall v :: WithKey(a, key, v) == WithKey(b, key, v)
    ensures key(a[0]) == key(b[0])
  {
    InWithKey(a, key, b[0]);
    InWithKey(b, key, b[0]);
    InWithKey(a, key, a[0]);
    InWithKey(b, key, a[0]);
    var i :| 0 <= i < |a| && a[i] == b[0];
    var j :| 0 <= j < |b| && b[j] == a[0];
    assert key(a[0]) >= key(a[i]) && key(b[0]) >= key(b[j]);
  }

  /** With equal head keys and equal elements per key, the heads agree and so do the tails per key. */
  lemma TailsAgree<T>(a: seq<T>, b: seq<T>, key: T -> int)
    requires a != [] && b != [] && key(a[0]) == key(b[0])
    requires forall v :: WithKey(a, key, v) == WithKey(b, key, v)
    ensures a[0] == b[0]
    ensures forall v :: WithKey(a[1..], key, v) == WithKey(b[1..], key, v)
  {
    var k := key(a[0]);
    assert WithKey(a, key, k) == WithKey(b, key, k);
    TailAgrees(a, b, key, k);
    forall v ensures WithKey(a[1..], key, v) == WithKey(b[1..], key, v) {
      assert WithKey(a, key, v) == WithKey(b, key, v);
      TailAgrees(a, b, key, v);
    }
  }

  /** One key's share of `TailsAgree`. */
  lemma TailAgrees<T>(a: seq<T>, b: seq<T>, key: T -> int, v: int)
    requires a != [] && b != [] && key(a[0]) == key(b[0])
    requires WithKey(a, key, v) == WithKey(b, key, v)
    ensures key(a[0]) == v ==> a[0] == b[0]
    ensures WithKey(a[1..], key, v) == WithKey(b[1..], key, v)
  {
    var ta, tb := WithKey(a[1..], key, v), WithKey(b[1..], key, v);
    if key(a[0]) == v {
      assert WithKey(a, key, v) == [a[0]] + ta;
      assert WithKey(b, key, v) == [b[0]] + tb;
      assert ([a[0]] + ta)[0] == a[0] && ([a[0]] + ta)[1..] == ta;
      assert ([b[0]] + tb)[0] == b[0] && ([b[0]] + tb)[1..] == tb;
    } else {
      assert [] + ta == ta && [] + tb == tb;
      assert WithKey(a, key, v) == ta;
      assert WithKey(b, key, v) == tb;
    }
  }

  lemma SortedDescTail<T>(s: seq<T>, key: T -> int)
    requires s != [] && SortedDesc(s, key)
    ensures SortedDesc(s[1..], key)
  {
    forall i, j | 0 <= i < j < |s[1..]| ensures key(s[1..][i]) >= key(s[1..][j]) {
      assert s[1..][i] == s[i + 1] && s[1..][j] == s[j + 1];
    }
  }

  ghost predicate IsPrefix<T>(a: seq<T>, b: seq<T>)
  {
    |a| <= |b| && a == b[..|a|]
  }

  /** Python's `s[:k]` for any integer `k`: a negative `k` counts from the end. */
  function PrefixTo<T>(s: seq<T>, k: int): (r: seq<T>)
    ensures |r| == if k >= 0 then Min(k, |s|) else Max(0, |s| + k)
    ensures r == s[..|r|]
  {
    if k >= 0 then s[..Min(k, |s|)] else s[..Max(0, |s| + k)]
  }

  /** The chunks of the notes at the default sizes, `split_into_chunks(notes_text)`. */
  function NoteChunks(notesText: string): seq<string>
  {
    Chunking.Chunks(notesText, Chunking.DefaultMaxChars, Chunking.DefaultOverlap)
  }

  /** The ranking key: `keyword_score(c, question)`. */
  function ScoreFor(question: string): string -> int
  {
    c => Scoring.KeywordScore(c, question)
  }

  /** `pick_relevant_chunks(notes_text, question, top_k)`. */
  function PickRelevantChunks(notesText: string, question: string, topK: int): (picked: seq<string>)
    ensures |picked| <= |NoteChunks(notesText)|
    ensures 0 <= topK ==> |picked| == Min(topK, |NoteChunks(notesText)|)
    ensures topK < 0 ==> |picked| == Max(0, |NoteChunks(notesText)| + topK)
  {
    var chunks := NoteChunks(notesText);
    if chunks == [] then [] else PrefixTo(SortByKeyDesc(chunks, ScoreFor(question)), topK)
  }

  /**
   * The selection: `min(top_k, #chunks)` chunks for a non-negative `top_k` (`[]` when the
   * notes have no chunks), each one a chunk of the notes and none more often than it occurs
   * there, in non-increasing score order, chunks of equal score in their order in the notes,
   * and no chunk left out scores higher than a chunk taken.
   */
  lemma PickRelevantChunksSpec(notesText: string, question: string, topK: int)
    ensures var chunks, r, key := NoteChunks(notesText), PickRelevantChunks(notesText, question, topK), ScoreFor(question);
      && (chunks == [] ==> r == [])
      && (0 <= topK ==> |r| == Min(topK, |chunks|))
      && multiset(r) <= multiset(chunks)
      && SortedDesc(r, key)
      && (forall v :: IsPrefix(WithKey(r, key, v), WithKey(chunks, key, v)))
      && (forall x, y :: x in r && y in multiset(chunks) - multiset(r) ==> key(x) >= key(y))
  {
    var chunks, key := NoteChunks(notesText), ScoreFor(question);
    var sorted := SortByKeyDesc(chunks, key);
    SortByKeyDescFacts(chunks, key);
    var r := PickRelevantChunks(notesText, question, topK);
    if chunks != [] {
      var n := |r|;
      assert r == sorted[..n];
      assert sorted == r + sorted[n..];
      PrefixFacts(r, sorted[n..], key);
    }
  }

  /** What taking a prefix `p` of a sorted, stable sequence `p + q` keeps. */
  lemma {:induction false} PrefixFacts<T>(p: seq<T>, q: seq<T>, key: T -> int)
    requires SortedDesc(p + q, key)
    ensures SortedDesc(p, key)
    ensures multiset(p) <= multiset(p + q) && multiset(p + q) - multiset(p) == multiset(q)
    ensures forall v :: IsPrefix(WithKey(p, key, v), WithKey(p + q, key, v))
    ensures forall x, y :: x in p && y in multiset(q) ==> key(x) >= key(y)
  {
    forall i, j | 0 <= i < j < |p| ensures key(p[i]) >= key(p[j]) {
      assert p[i] == (p + q)[i] && p[j] == (p + q)[j];
    }
    forall v ensures IsPrefix(WithKey(p, key, v), WithKey(p + q, key, v)) {
      WithKeyConcat(p, q, key, v);
    }
    forall x, y | x in p && y in multiset(q) ensures key(x) >= key(y) {
      var i :| 0 <= i < |p| && p[i] == x;
      var j :| 0 <= j < |q| && q[j] == y;
      assert (p + q)[i] == x && (p + q)[|p| + j] == y;
    }
  }

  lemma {:induction false} WithKeyConcat<T>(p: seq<T>, q: seq<T>, key: T -> int, v: int)
    ensures WithKey(p + q, key, v) == WithKey(p, key, v) + WithKey(q, key, v)
  {
    if p == [] {
      assert p + q == q;
    } else {
      var pq := p + q;
      var h: seq<T> := if key(p[0]) == v then [p[0]] else [];
      var a, b := WithKey(p[1..], key, v), WithKey(q, key, v);
      WithKeyConcat(p[1..], q, key, v);
      assert pq != [] && pq[0] == p[0] && pq[1..] == p[1..] + q;
      assert WithKey(pq, key, v) == h + (a + b);
      assert WithKey(p, key, v) == h + a;
      assert h + (a + b) == (h + a) + b;
    }
  }
}
