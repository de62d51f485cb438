/**
 * The pieces a breadcrumb trail is rendered from, and Rails' `safe_join`,
 * which flattens the array it is handed and puts a separator between
 * neighbouring entries. HTML itself (tags, escaping, the translated
 * separator text) is abstracted away: a trail is a sequence of crumbs.
 */
module Markup {
  import opened Wrappers

  /** Where a link points: a repository's page or a catalog record's page. */
  datatype Target = RepositoryPath(slug: string) | DocumentPath(globalId: string)

  /** One rendered entry of a trail. */
  datatype Crumb =
    | Link(text: string, target: Target)   // link_to text, path
    | Span(text: string)                   // content_tag(:span, text), not linked
    | Ellipsis                             // '&hellip;', never linked
    | Separator                            // the translated breadcrumb separator

  /** An element of the array given to safe_join: one crumb, or an array pushed whole. */
  datatype Piece = One(crumb: Crumb) | Many(crumbs: seq<Crumb>)

  function Items(p: Piece): seq<Crumb> {
    match p
    case One(c) => [c]
    case Many(cs) => cs
  }

  /** Array#flatten over one level of nesting. */
  function Flatten(pieces: seq<Piece>): seq<Crumb> {
    if pieces == [] then [] else Items(pieces[0]) + Flatten(pieces[1..])
  }

  /** Array#join: the items in order, with `sep` between each two neighbours. */
  function Intersperse(items: seq<Crumb>, sep: Crumb): (r: seq<Crumb>)
    ensures |r| == if items == [] then 0 else 2 * |items| - 1
    ensures forall k :: 0 <= k < |items| ==> r[2 * k] == items[k]
    ensures forall j :: 0 <= j < |r| && j % 2 == 1 ==> r[j] == sep
  {
    if |items| <= 1 then items
    else
      var rest := Intersperse(items[1..], sep);
      [items[0], sep] + rest
  }

  /** Flattening an array of one piece gives that piece's crumbs. */
  lemma FlattenOne(p: Piece)
    ensures Flatten([p]) == Items(p)
  {
    assert [p][1..] == [];
  }

  /** Flattening an array of two pieces concatenates their crumbs in order. */
  lemma FlattenTwo(p: Piece, q: Piece)
    ensures Flatten([p, q]) == Items(p) + Items(q)
  {
    assert [p, q][1..] == [q];
    FlattenOne(q);
  }

  /** Flattening an array of three pieces concatenates their crumbs in order. */
  lemma FlattenThree(p: Piece, q: Piece, r: Piece)
    ensures Flatten([p, q, r]) == Items(p) + Items(q) + Items(r)
  {
    assert [p, q, r][1..] == [q, r];
    FlattenTwo(q, r);
  }

  /**
   * safe_join(array, sep): flatten the array, then join with `sep`;
   * with no separator (`None`) the entries are simply concatenated.
   */
  function SafeJoin(pieces: seq<Piece>, sep: Option<Crumb>): seq<Crumb> {
    match sep
    case None => Flatten(pieces)
    case Some(s) => Intersperse(Flatten(pieces), s)
  }

  /** The entries of a joined trail: every other element, starting with the first. */
  function Entries(trail: seq<Crumb>): (es: seq<Crumb>)
    ensures |es| == (|trail| + 1) / 2
  {
    seq((|trail| + 1) / 2, k requires 0 <= k < (|trail| + 1) / 2 => trail[2 * k])
  }

  /** A trail in joined form: entries at even positions, `sep` exactly at the odd ones. */
  predicate Separated(trail: seq<Crumb>, sep: Crumb) {
    && (|trail| % 2 == 1 || |trail| == 0)
    && forall j :: 0 <= j < |trail| ==> (trail[j] == sep <==> j % 2 == 1)
  }

  /** Dropping the separators of a joined trail gives back the joined items. */
  lemma {:induction false} EntriesOfIntersperse(items: seq<Crumb>, sep: Crumb)
    ensures Entries(Intersperse(items, sep)) == items
  {
    var es := Entries(Intersperse(items, sep));
    assert |es| == |items|;
    forall k | 0 <= k < |items| ensures es[k] == items[k] { }
  }

  /** Joining items that do not contain the separator yields a trail in joined form. */
  lemma {:induction false} IntersperseSeparated(items: seq<Crumb>, sep: Crumb)
    requires sep !in items
    ensures Separated(Intersperse(items, sep), sep)
  {
    var r := Intersperse(items, sep);
    forall j | 0 <= j < |r| ensures r[j] == sep <==> j % 2 == 1 {
      if j % 2 == 0 {
        assert r[2 * (j / 2)] == items[j / 2];
      }
    }
  }

  /** Joining neither adds nor loses anything but separators. */
  lemma {:induction false} IntersperseMembers(items: seq<Crumb>, sep: Crumb)
    ensures forall c :: c != sep ==> (c in Intersperse(items, sep) <==> c in items)
  {
    var r := Intersperse(items, sep);
    forall c | c != sep ensures c in r <==> c in items {
      if c in r {
        var j :| 0 <= j < |r| && r[j] == c;
        assert r[2 * (j / 2)] == items[j / 2];
      }
      if c in items {
        var k :| 0 <= k < |items| && items[k] == c;
        assert r[2 * k] == c;
      }
    }
  }

  /** Everything a trail builder needs to know about joining its entries. */
  lemma Joined(items: seq<Crumb>, sep: Crumb)
    requires sep !in items
    ensures Separated(Intersperse(items, sep), sep)
    ensures Entries(Intersperse(items, sep)) == items
    ensures forall c :: c != sep ==> (c in Intersperse(items, sep) <==> c in items)
  {
    IntersperseSeparated(items, sep);
    EntriesOfIntersperse(items, sep);
    IntersperseMembers(items, sep);
  }

  /** Re-joining the entries of a trail in joined form rebuilds the trail exactly. */
  lemma {:induction false} IntersperseOfEntries(trail: seq<Crumb>, sep: Crumb)
    requires Separated(trail, sep)
    ensures Intersperse(Entries(trail), sep) == trail
  {
    var es := Entries(trail);
    var r := Intersperse(es, sep);
    assert |r| == |trail|;
    forall j | 0 <= j < |trail| ensures r[j] == trail[j] {
      if j % 2 == 0 {
        assert r[2 * (j / 2)] == es[j / 2];
      }
    }
  }

  /** A slice of a joined trail from one entry to another is itself a joined trail of those entries. */
  lemma SeparatedSlice(trail: seq<Crumb>, sep: Crumb, lo: nat, hi: nat)
    requires Separated(trail, sep)
    requires lo < hi <= |trail| && lo % 2 == 0 && hi % 2 == 1
    ensures Separated(trail[lo..hi], sep)
    ensures Entries(trail[lo..hi]) == Entries(trail)[lo / 2..(hi + 1) / 2]
  {
    var s := trail[lo..hi];
    forall j | 0 <= j < |s| ensures s[j] == sep <==> j % 2 == 1 {
      assert s[j] == trail[lo + j];
    }
    var es, whole := Entries(s), Entries(trail);
    forall k | 0 <= k < |es| ensures es[k] == whole[lo / 2 + k] {
      assert es[k] == s[2 * k] == trail[lo + 2 * k];
    }
  }

  /** A joined trail is determined by its entries. */
  lemma SeparatedByEntries(a: seq<Crumb>, b: seq<Crumb>, sep: Crumb)
    requires Separated(a, sep) && Separated(b, sep)
    requires Entries(a) == Entries(b)
    ensures a == b
  {
    IntersperseOfEntries(a, sep);
    IntersperseOfEntries(b, sep);
  }
}
