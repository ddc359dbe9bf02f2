/**
 * The read model shared by both store adapters, and the reference semantics
 * of the remote stores' listing queries: order by title ascending and cut a
 * window of positions out of the ordered result.
 */
module Store {
  import opened Text

  /** A newsletter as the listing returns it. */
  datatype Newsletter = Newsletter(
    id: string,
    title: string,
    description: string,
    url: string,
    category: string,
    tags: seq<string>,
    approved: bool)

  /** What a listing call returns: one page of newsletters and the size of the whole filtered set. */
  datatype Listing = Listing(newsletters: seq<Newsletter>, totalCount: nat)

  /** Lexicographic order on strings by character code. */
  predicate TitleLeq(a: string, b: string) {
    a == [] || (b != [] && (a[0] < b[0] || (a[0] == b[0] && TitleLeq(a[1..], b[1..]))))
  }

  lemma {:induction false} TitleLeqTotal(a: string, b: string)
    ensures TitleLeq(a, b) || TitleLeq(b, a)
  {
    if a != [] && b != [] && a[0] == b[0] {
      TitleLeqTotal(a[1..], b[1..]);
    }
  }

  lemma {:induction false} TitleLeqTransitive(a: string, b: string, c: string)
    requires TitleLeq(a, b) && TitleLeq(b, c)
    ensures TitleLeq(a, c)
  {
    if a != [] && b != [] && c != [] && a[0] == b[0] && b[0] == c[0] {
      TitleLeqTransitive(a[1..], b[1..], c[1..]);
    }
  }

  /** Ordered by title ascending, as `.order('title', { ascending: true })` asks. */
  ghost predicate SortedByTitle<T>(s: seq<T>, title: T -> string) {
    forall i, j :: 0 <= i < j < |s| ==> TitleLeq(title(s[i]), title(s[j]))
  }

  /** Puts `x` in front of the first element whose title is not below it. */
  function InsertByTitle<T(==)>(x: T, s: seq<T>, title: T -> string): (r: seq<T>)
    requires SortedByTitle(s, title)
    ensures multiset(r) == multiset(s) + multiset{x}
    ensures SortedByTitle(r, title)
  {
    if s == [] then [x]
    else if TitleLeq(title(x), title(s[0])) then
      assert forall j :: 0 < j < |s| ==> TitleLeq(title(x), title(s[j])) by {
        forall j | 0 < j < |s| ensures TitleLeq(title(x), title(s[j])) {
          TitleLeqTransitive(title(x), title(s[0]), title(s[j]));
        }
      }
      [x] + s
    else
      TitleLeqTotal(title(x), title(s[0]));
      var rest := InsertByTitle(x, s[1..], title);
      assert s == [s[0]] + s[1..];
      assert forall j :: 0 <= j < |rest| ==> TitleLeq(title(s[0]), title(rest[j])) by {
        forall j | 0 <= j < |rest| ensures TitleLeq(title(s[0]), title(rest[j])) {
          assert rest[j] in multiset(rest);
          assert rest[j] == x || rest[j] in multiset(s[1..]);
          if rest[j] != x {
            var k :| 0 <= k < |s[1..]| && s[1..][k] == rest[j];
            assert s[k + 1] == rest[j];
          }
        }
      }
      [s[0]] + rest
  }

  /** The store's ordering of a result set: the same rows, by title ascending. */
  function SortByTitle<T(==)>(s: seq<T>, title: T -> string): (r: seq<T>)
    ensures multiset(r) == multiset(s)
    ensures SortedByTitle(r, title)
  {
    if s == [] then []
    else
      assert s == [s[0]] + s[1..];
      InsertByTitle(s[0], SortByTitle(s[1..], title), title)
  }

  /** The positions `start` up to (not including) `stop` of `s`, clipped to the positions that exist;
      a window that starts before position 0 is empty. */
  function Window<T>(s: seq<T>, start: int, stop: int): (r: seq<T>)
    ensures |r| <= |s|
    ensures start <= stop ==> |r| <= stop - start
    ensures 0 <= start <= stop <= |s| ==> |r| == stop - start
    ensures 0 <= start < |s| && start <= stop ==> |r| == (if stop < |s| then stop else |s|) - start
    ensures start >= |s| ==> r == []
    ensures forall k :: 0 <= k < |r| ==> 0 <= start + k < |s| && r[k] == s[start + k]
  {
    if start < 0 || start >= |s| then []
    else s[start..if stop < start then start else if stop > |s| then |s| else stop]
  }

  /** A window of an ordered sequence is ordered. */
  lemma WindowSorted<T>(s: seq<T>, start: int, stop: int, title: T -> string)
    requires SortedByTitle(s, title)
    ensures SortedByTitle(Window(s, start, stop), title)
  {
    var w := Window(s, start, stop);
    forall i, j | 0 <= i < j < |w| ensures TitleLeq(title(w[i]), title(w[j])) {
      assert w[i] == s[start + i] && w[j] == s[start + j];
    }
  }

  /** Every element of a window of the ordered rows is one of the rows. */
  lemma SortedWindowMembers<T>(s: seq<T>, start: int, stop: int, title: T -> string)
    ensures forall x :: x in Window(SortByTitle(s, title), start, stop) ==> x in s
  {
    var sorted := SortByTitle(s, title);
    forall x | x in Window(sorted, start, stop) ensures x in s {
      var w := Window(sorted, start, stop);
      var k :| 0 <= k < |w| && w[k] == x;
      assert x == sorted[start + k];
      assert x in multiset(sorted);
    }
  }

  /** Adjacent windows of one result set join into the window that spans both. */
  lemma AdjacentWindows<T>(s: seq<T>, a: int, b: int, c: int)
    requires 0 <= a <= b <= c
    ensures Window(s, a, b) + Window(s, b, c) == Window(s, a, c)
  {
  }
}
