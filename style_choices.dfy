/**
 * The list of other items' stylesheets offered for borrowing
 * (`get_available_styles`, custom-page-styles.php:409-441): which items are
 * offered, and the `id => label` array the rows are turned into.
 */
module StyleChoices {

  import opened Wrappers
  import opened PhpString

  /**
   * An item as the query sees it: its id, title, type, whether it is
   * published, and its stored CSS meta ("" when there is none).
   */
  datatype PostRow = PostRow(id: int, title: string, postType: string, published: bool, css: string)

  /** The query's `WHERE`: stored CSS not empty, published, and not the item being edited. */
  predicate Offered(row: PostRow, current: int)
  {
    row.css != "" && row.published && row.id != current
  }

  /** The query's result rows, in the order the items are given (newest change first). */
  function QueryRows(posts: seq<PostRow>, current: int): (rows: seq<PostRow>)
    ensures forall r :: r in rows ==> Offered(r, current)
  {
    if posts == [] then []
    else
      var front := QueryRows(posts[..|posts| - 1], current);
      var last := posts[|posts| - 1];
      if Offered(last, current) then front + [last] else front
  }

  /** `singular_name` of the registered type, or the raw type name when the type is unknown. */
  function TypeLabel(typeNames: map<string, string>, postType: string): string
  {
    if postType in typeNames then typeNames[postType] else postType
  }

  /**
   * `sprintf('%s (ID: %d, %s)', …)`: the title, then the id and the type
   * label in parentheses, as in `About (ID: 12, Page)`.
   */
  function Label(row: PostRow, typeNames: map<string, string>): string
  {
    row.title + " (ID: " + IntToString(row.id) + ", " + TypeLabel(typeNames, row.postType) + ")"
  }

  /**
   * The id in the label is what tells apart items that share a title and a
   * type: two such rows with different ids never get the same label.
   */
  lemma LabelDisambiguates(a: PostRow, b: PostRow, typeNames: map<string, string>)
    requires a.title == b.title && a.postType == b.postType
    requires 0 <= a.id && 0 <= b.id && a.id != b.id
    ensures Label(a, typeNames) != Label(b, typeNames)
  {
    if Label(a, typeNames) == Label(b, typeNames) {
      var tail := ", " + TypeLabel(typeNames, a.postType) + ")";
      var head := a.title + " (ID: ";
      var la := IntToString(a.id);
      var lb := IntToString(b.id);
      assert Label(a, typeNames) == head + la + tail;
      assert Label(b, typeNames) == head + lb + tail;
      assert |la| == |lb|;
      assert la == Label(a, typeNames)[|head|..|head| + |la|];
      assert lb == Label(b, typeNames)[|head|..|head| + |lb|];
      NatToStringInjective(a.id, b.id);
      assert false;
    }
  }

  // ---------------------------------------------------------------------------
  // PHP arrays with integer keys
  // ---------------------------------------------------------------------------

  /** A PHP array of `id => label`, in insertion order. */
  type Styles = seq<(int, string)>

  function Keys(s: Styles): (ks: seq<int>)
    ensures |ks| == |s|
    ensures forall i :: 0 <= i < |s| ==> ks[i] == s[i].0
  {
    if s == [] then [] else [s[0].0] + Keys(s[1..])
  }

  /** `$s[$k]`, or `None` when the key is absent. */
  function Lookup(s: Styles, k: int): Option<string>
  {
    if s == [] then None else if s[0].0 == k then Some(s[0].1) else Lookup(s[1..], k)
  }

  predicate DistinctKeys(s: Styles)
  {
    forall i, j :: 0 <= i < j < |s| ==> s[i].0 != s[j].0
  }

  /**
   * `$s[$k] = $v`: a present key keeps its position and takes the new
   * value; an absent key is appended.
   */
  function Put(s: Styles, k: int, v: string): (r: Styles)
    ensures Keys(r) == if k in Keys(s) then Keys(s) else Keys(s) + [k]
    ensures Lookup(r, k) == Some(v)
    ensures forall j :: j != k ==> Lookup(r, j) == Lookup(s, j)
  {
    if s == [] then [(k, v)]
    else if s[0].0 == k then [(k, v)] + s[1..]
    else
      var r := [s[0]] + Put(s[1..], k, v);
      assert Keys(s) == [s[0].0] + Keys(s[1..]);
      assert Keys(r) == [s[0].0] + Keys(Put(s[1..], k, v));
      r
  }

  lemma {:induction false} PutKeepsDistinct(s: Styles, k: int, v: string)
    requires DistinctKeys(s)
    ensures DistinctKeys(Put(s, k, v))
  {
    var r := Put(s, k, v);
    var ks := Keys(s);
    var rs := Keys(r);
    forall i, j | 0 <= i < j < |r| ensures r[i].0 != r[j].0 {
      assert rs[i] == r[i].0 && rs[j] == r[j].0;
      if k in ks {
        assert ks[i] == s[i].0 && ks[j] == s[j].0;
      } else if j < |s| {
        assert ks[i] == s[i].0 && ks[j] == s[j].0;
      } else {
        assert rs[j] == k;
        assert ks[i] == s[i].0;
      }
    }
  }

  // ---------------------------------------------------------------------------
  // The rows as labels
  // ---------------------------------------------------------------------------

  /** The `foreach` over the rows: `$styles[$row->ID] = label`, row after row. */
  function Choices(rows: seq<PostRow>, typeNames: map<string, string>): (s: Styles)
  {
    if rows == [] then []
    else
      var last := rows[|rows| - 1];
      Put(Choices(rows[..|rows| - 1], typeNames), last.id, Label(last, typeNames))
  }

  /** The last row with id `k`: the one whose label the array keeps. */
  function LastWith(rows: seq<PostRow>, k: int): (r: Option<PostRow>)
    ensures r.Some? ==> r.value in rows && r.value.id == k
    ensures r.None? <==> forall i :: 0 <= i < |rows| ==> rows[i].id != k
  {
    if rows == [] then None
    else if rows[|rows| - 1].id == k then Some(rows[|rows| - 1])
    else
      var front := rows[..|rows| - 1];
      var r := LastWith(front, k);
      assert forall i :: 0 <= i < |front| ==> front[i] == rows[i];
      r
  }

  /** Each id appears once, and carries the label of the last row with that id. */
  lemma {:induction false} ChoicesLookup(rows: seq<PostRow>, typeNames: map<string, string>, k: int)
    ensures DistinctKeys(Choices(rows, typeNames))
    ensures Lookup(Choices(rows, typeNames), k) ==
            match LastWith(rows, k)
            case None => None
            case Some(row) => Some(Label(row, typeNames))
  {
    if rows != [] {
      var front := rows[..|rows| - 1];
      var last := rows[|rows| - 1];
      ChoicesLookup(front, typeNames, k);
      PutKeepsDistinct(Choices(front, typeNames), last.id, Label(last, typeNames));
    }
  }

  /** An id is offered exactly when some item with that id passes the query's filter. */
  lemma {:induction false} QueryRowsHasId(posts: seq<PostRow>, current: int, k: int)
    ensures LastWith(QueryRows(posts, current), k).Some? <==>
            exists i :: 0 <= i < |posts| && posts[i].id == k && Offered(posts[i], current)
  {
    var rows := QueryRows(posts, current);
    if posts != [] {
      var front := posts[..|posts| - 1];
      var last := posts[|posts| - 1];
      QueryRowsHasId(front, current, k);
      var frontRows := QueryRows(front, current);
      if LastWith(rows, k).Some? {
        var j :| 0 <= j < |rows| && rows[j].id == k;
        if j < |frontRows| {
          assert rows[j] == frontRows[j];
          var i :| 0 <= i < |front| && front[i].id == k && Offered(front[i], current);
          assert posts[i] == front[i];
        } else {
          assert rows[j] == last;
        }
      }
      if exists i :: 0 <= i < |posts| && posts[i].id == k && Offered(posts[i], current) {
        var i :| 0 <= i < |posts| && posts[i].id == k && Offered(posts[i], current);
        if i < |front| {
          assert front[i] == posts[i];
          var j :| 0 <= j < |frontRows| && frontRows[j].id == k;
          assert rows[j] == frontRows[j];
        } else {
          assert rows[|rows| - 1] == last;
        }
      }
    }
  }

  /** The item being edited is never offered to itself. */
  lemma CurrentNeverOffered(posts: seq<PostRow>, typeNames: map<string, string>, current: int)
    ensures Lookup(Choices(QueryRows(posts, current), typeNames), current).None?
  {
    ChoicesLookup(QueryRows(posts, current), typeNames, current);
  }

  /** One more row: the array of the first `i + 1` rows puts row `i` into that of the first `i`. */
  lemma ChoicesStep(rows: seq<PostRow>, typeNames: map<string, string>, i: nat)
    requires i < |rows|
    ensures Choices(rows[..i + 1], typeNames) == Put(Choices(rows[..i], typeNames), rows[i].id, Label(rows[i], typeNames))
  {
    assert rows[..i + 1][..i] == rows[..i];
    assert rows[..i + 1][i] == rows[i];
  }

  /** An id gets a label exactly when some item with that id passes the query's filter. */
  lemma ChoicesHasId(posts: seq<PostRow>, current: int, typeNames: map<string, string>, k: int)
    ensures Lookup(Choices(QueryRows(posts, current), typeNames), k).Some? <==>
            exists i :: 0 <= i < |posts| && posts[i].id == k && Offered(posts[i], current)
  {
    ChoicesLookup(QueryRows(posts, current), typeNames, k);
    QueryRowsHasId(posts, current, k);
  }

  /**
   * `get_available_styles($current_post_id)` after its query: the rows are
   * turned into `id => label` one by one.
   */
  method AvailableStyles(posts: seq<PostRow>, current: int, typeNames: map<string, string>) returns (styles: Styles)
    ensures styles == Choices(QueryRows(posts, current), typeNames)
    ensures DistinctKeys(styles)
    ensures Lookup(styles, current).None?
  {
    var rows := QueryRows(posts, current);
    styles := [];
    for i := 0 to |rows|
      invariant styles == Choices(rows[..i], typeNames)
    {
      var row := rows[i];
      ChoicesStep(rows, typeNames, i);
      styles := Put(styles, row.id, Label(row, typeNames));
    }
    assert rows[..|rows|] == rows;
    ChoicesLookup(rows, typeNames, current);
  }
}
