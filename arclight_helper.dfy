/**
 * Arclight's generic view helpers: the breadcrumb trails derived from a
 * finding-aid record's ancestors, the search-parameter shaping behind the
 * grouped / ungrouped result toggles, the header icon chosen from a
 * record's level, and the "should this metadata field render" predicates.
 *
 * Every helper is a pure function of its inputs. Rendered HTML is
 * abstracted to sequences of crumbs (module Markup).
 */
module ArclightHelper {
  import opened Wrappers
  import opened Markup

  // ---------------------------------------------------------------------
  // Records
  // ---------------------------------------------------------------------

  /** An ancestor of a record, as the ancestor list yields it; `title` is its label (`label` is a Dafny keyword). */
  datatype Parent = Parent(title: string, globalId: string)

  /** The repository configuration a record is attached to, if any. */
  datatype RepositoryConfig = RepositoryConfig(slug: Option<string>)

  /**
   * The parts of a catalog record the helpers read. `parents` is the
   * record's ancestor list, root (the collection) first, as computed
   * from the record by the ancestor parser.
   */
  datatype Document = Document(
    repository: string,
    repositoryConfig: Option<RepositoryConfig>,
    level: Option<string>,
    parents: seq<Parent>)

  // ---------------------------------------------------------------------
  // Breadcrumbs
  // ---------------------------------------------------------------------

  /** A link to an ancestor's record page, labelled with its title. */
  function ParentLink(p: Parent): Crumb {
    Link(p.title, DocumentPath(p.globalId))
  }

  /** One link per ancestor, in the ancestors' order. */
  function ParentLinks(parents: seq<Parent>): (links: seq<Crumb>)
    ensures |links| == |parents|
    ensures forall i :: 0 <= i < |parents| ==> links[i] == ParentLink(parents[i])
  {
    seq(|parents|, i requires 0 <= i < |parents| => ParentLink(parents[i]))
  }

  /** Ruby's String#blank? character class `[[:space:]]`: the Unicode White_Space characters. */
  predicate IsSpace(c: char) {
    || '\U{0009}' <= c <= '\U{000D}'
    || c == ' ' || c == '\U{0085}' || c == '\U{00A0}' || c == '\U{1680}'
    || '\U{2000}' <= c <= '\U{200A}'
    || c == '\U{2028}' || c == '\U{2029}' || c == '\U{202F}' || c == '\U{205F}' || c == '\U{3000}'
  }

  /** Object#present? on a possibly-nil string: not nil and not blank. */
  predicate Present(s: Option<string>) {
    s.Some? && exists i :: 0 <= i < |s.value| && !IsSpace(s.value[i])
  }

  /** The slug of the record's repository configuration; nil when there is no configuration. */
  function RepositorySlug(doc: Document): Option<string> {
    match doc.repositoryConfig
    case None => None
    case Some(config) => config.slug
  }

  /**
   * The repository entry of a trail: a link to the repository's page when
   * its slug is present, an unlinked span otherwise; labelled with the
   * repository's name either way.
   */
  function BuildRepositoryLink(doc: Document): (c: Crumb)
    ensures (c.Link? || c.Span?) && c.text == doc.repository
    ensures c.Link? <==> Present(RepositorySlug(doc))
    ensures c.Link? ==> c.target == RepositoryPath(RepositorySlug(doc).value)
  {
    var slug := RepositorySlug(doc);
    if Present(slug) then Link(doc.repository, RepositoryPath(slug.value))
    else Span(doc.repository)
  }

  /** A repository slug made only of white space, the empty slug included, does not make a link. */
  lemma BlankSlugGivesSpan(doc: Document, slug: string)
    requires doc.repositoryConfig == Some(RepositoryConfig(Some(slug)))
    requires forall i :: 0 <= i < |slug| ==> IsSpace(slug[i])
    ensures BuildRepositoryLink(doc) == Span(doc.repository)
  {
  }

  /** No crumb this helper builds for an entry is a separator or an ellipsis. */
  lemma LinksAreEntries(doc: Document)
    ensures Separator !in [BuildRepositoryLink(doc)] + ParentLinks(doc.parents)
    ensures Ellipsis !in [BuildRepositoryLink(doc)] + ParentLinks(doc.parents)
  {
    var xs := [BuildRepositoryLink(doc)] + ParentLinks(doc.parents);
    forall i | 0 <= i < |xs| ensures xs[i] != Separator && xs[i] != Ellipsis {
      if i > 0 {
        assert xs[i] == ParentLink(doc.parents[i - 1]);
      }
    }
  }

  /**
   * The full trail: the repository entry, then a link to every ancestor in
   * root-to-leaf order, separated by the breadcrumb separator.
   */
  function ParentsToLinks(doc: Document): (trail: seq<Crumb>)
    ensures Separated(trail, Separator)
    ensures |Entries(trail)| == 1 + |doc.parents|
    ensures Entries(trail)[0] == BuildRepositoryLink(doc)
    ensures forall i :: 0 <= i < |doc.parents| ==> Entries(trail)[i + 1] == ParentLink(doc.parents[i])
  {
    var repo, links := BuildRepositoryLink(doc), ParentLinks(doc.parents);
    var pieces := [One(repo), Many(links)];
    FlattenTwo(One(repo), Many(links));
    LinksAreEntries(doc);
    Joined([repo] + links, Separator);
    SafeJoin(pieces, Some(Separator))
  }

  /**
   * The compact trail of an ungrouped result: the repository entry, a link
   * to the first ancestor (if any), and an unlinked ellipsis, last, when
   * there are further ancestors.
   */
  function RegularCompactBreadcrumbs(doc: Document): (trail: seq<Crumb>)
    ensures Separated(trail, Separator)
    ensures |Entries(trail)| == if |doc.parents| <= 1 then 1 + |doc.parents| else 3
    ensures Entries(trail)[0] == BuildRepositoryLink(doc)
    ensures |doc.parents| >= 1 ==> Entries(trail)[1] == ParentLink(doc.parents[0])
    ensures |doc.parents| > 1 ==> Entries(trail)[2] == Ellipsis
    ensures Ellipsis in trail <==> |doc.parents| > 1
  {
    var parents := doc.parents;
    var repo := BuildRepositoryLink(doc);
    // a slice of length 1 from index 0: the first ancestor, if any
    var first := ParentLinks(parents[..Min(|parents|, 1)]);
    var pieces := [One(repo), Many(first)] + if |parents| > 1 then [One(Ellipsis)] else [];
    var entries := [repo] + first + if |parents| > 1 then [Ellipsis] else [];
    FlattenTwo(One(repo), Many(first));
    FlattenThree(One(repo), Many(first), One(Ellipsis));
    assert Flatten(pieces) == entries;
    assert |first| == Min(|parents|, 1) && (|first| == 1 ==> first[0] == ParentLink(parents[0]));
    assert Separator !in entries;
    assert Ellipsis in entries <==> |parents| > 1;
    Joined(entries, Separator);
    SafeJoin(pieces, Some(Separator))
  }

  /**
   * The component-context trail: nothing (nil) for a record with at most
   * one ancestor; otherwise links to the ancestors after the root, in
   * order, at most 999 of them (a slice of length 999 from index 1).
   */
  function ComponentParentsToLinks(doc: Document): (trail: Option<seq<Crumb>>)
    ensures trail.None? <==> |doc.parents| <= 1
    ensures trail.Some? ==> Separated(trail.value, Separator)
    ensures trail.Some? ==> |Entries(trail.value)| == Min(|doc.parents|, 1000) - 1
    ensures trail.Some? ==> forall i :: 0 <= i < |Entries(trail.value)| ==>
      Entries(trail.value)[i] == ParentLink(doc.parents[i + 1])
    ensures trail.Some? ==> Ellipsis !in trail.value
  {
    var parents := doc.parents;
    if |parents| <= 1 then None
    else
      var links := ParentLinks(parents[1..Min(|parents|, 1000)]);
      FlattenOne(Many(links));
      assert Separator !in links && Ellipsis !in links by {
        LinksAreEntries(doc.(parents := parents[1..Min(|parents|, 1000)]));
      }
      Joined(links, Separator);
      Some(SafeJoin([Many(links)], Some(Separator)))
  }

  function Min(a: int, b: int): int {
    if a < b then a else b
  }

  /**
   * The top-level component trail: nothing for at most one ancestor; the
   * link to the first ancestor below the root when it is the only one;
   * otherwise that link, a separator and an unlinked ellipsis.
   */
  function ComponentTopLevelParentToLinks(doc: Document): (trail: Option<seq<Crumb>>)
    ensures trail.None? <==> |doc.parents| <= 1
    ensures |doc.parents| == 2 ==> trail == Some([ParentLink(doc.parents[1])])
    ensures |doc.parents| > 2 ==> trail == Some([ParentLink(doc.parents[1]), Separator, Ellipsis])
  {
    var parents := doc.parents;
    if |parents| <= 1 then None
    else
      var parentLink := ParentLink(parents[1]);
      if |parents| == 2 then Some([parentLink])
      else
        // safe_join without a separator argument concatenates
        FlattenThree(One(parentLink), One(Separator), One(Ellipsis));
        assert [parentLink] + [Separator] + [Ellipsis] == [parentLink, Separator, Ellipsis];
        Some(SafeJoin([One(parentLink), One(Separator), One(Ellipsis)], None))
  }

  /**
   * The compact trail agrees with the full trail on the repository entry and
   * the first ancestor, and is the full trail when there is no second ancestor.
   */
  lemma {:induction false} CompactIsPrefixOfFull(doc: Document)
    ensures var k := 2 * Min(|doc.parents|, 1) + 1;
      k <= |RegularCompactBreadcrumbs(doc)| && k <= |ParentsToLinks(doc)|
      && RegularCompactBreadcrumbs(doc)[..k] == ParentsToLinks(doc)[..k]
    ensures |doc.parents| <= 1 ==> RegularCompactBreadcrumbs(doc) == ParentsToLinks(doc)
  {
    var compact, full := RegularCompactBreadcrumbs(doc), ParentsToLinks(doc);
    var k := 2 * Min(|doc.parents|, 1) + 1;
    forall j | 0 <= j < k ensures compact[j] == full[j] {
      if j % 2 == 0 {
        assert compact[2 * (j / 2)] == Entries(compact)[j / 2];
        assert full[2 * (j / 2)] == Entries(full)[j / 2];
      }
    }
    assert compact[..k] == full[..k];
    if |doc.parents| <= 1 {
      assert compact == compact[..k] && full == full[..k];
    }
  }

  /**
   * The component trail is the full trail with the repository entry and the
   * root ancestor cut off, up to the 999-ancestor cap.
   */
  lemma {:induction false} ComponentTrailIsTailOfFull(doc: Document)
    requires |doc.parents| > 1
    ensures 2 * Min(|doc.parents|, 1000) + 1 <= |ParentsToLinks(doc)|
    ensures ComponentParentsToLinks(doc) == Some(ParentsToLinks(doc)[4..2 * Min(|doc.parents|, 1000) + 1])
  {
    var full := ParentsToLinks(doc);
    var comp := ComponentParentsToLinks(doc).value;
    var end := 2 * Min(|doc.parents|, 1000) + 1;
    SeparatedSlice(full, Separator, 4, end);
    var want := Entries(full)[2..(end + 1) / 2];
    forall i | 0 <= i < |want| ensures Entries(comp)[i] == want[i] {
      assert want[i] == Entries(full)[i + 2];
    }
    SeparatedByEntries(comp, full[4..end], Separator);
  }

  /**
   * The top-level component trail starts the full component trail, and is
   * all of it when the record has exactly two ancestors.
   */
  lemma {:induction false} TopLevelStartsComponentTrail(doc: Document)
    requires |doc.parents| > 1
    ensures ComponentTopLevelParentToLinks(doc).value[0] == ComponentParentsToLinks(doc).value[0]
    ensures |doc.parents| == 2 ==> ComponentTopLevelParentToLinks(doc) == ComponentParentsToLinks(doc)
  {
    var comp := ComponentParentsToLinks(doc).value;
    assert comp[0] == Entries(comp)[0];
    if |doc.parents| == 2 {
      assert |comp| == 1;
      assert comp == [Entries(comp)[0]];
    }
  }

  // ---------------------------------------------------------------------
  // Header icon
  // ---------------------------------------------------------------------

  /** String#downcase on the ASCII letters. */
  function LowerChar(c: char): char {
    if 'A' <= c <= 'Z' then (c as int + 32) as char else c
  }

  function Downcase(s: string): (r: string)
    ensures |r| == |s|
    ensures forall i :: 0 <= i < |s| ==> r[i] == LowerChar(s[i])
  {
    seq(|s|, i requires 0 <= i < |s| => LowerChar(s[i]))
  }

  /** The upper-case form of an ASCII lower-case letter; every other character is kept. */
  function UpperChar(c: char): char {
    if 'a' <= c <= 'z' then (c as int - 32) as char else c
  }

  /** `s` is `word` with any of its letters written in upper case instead. */
  predicate SpelledIgnoringCase(s: string, word: string) {
    |s| == |word| && forall i :: 0 <= i < |s| ==> s[i] == word[i] || s[i] == UpperChar(word[i])
  }

  /** The icon of a result's header: collection, file, or container for every other (or no) level. */
  function DocumentHeaderIcon(doc: Document): (icon: string)
    ensures icon == "collection" || icon == "file" || icon == "container"
    ensures icon == "collection" <==> doc.level.Some? && SpelledIgnoringCase(doc.level.value, "collection")
    ensures icon == "file" <==> doc.level.Some? && SpelledIgnoringCase(doc.level.value, "file")
  {
    match doc.level
    case None => "container"
    case Some(level) =>
      DowncaseMatches(level, "collection");
      DowncaseMatches(level, "file");
      var lower := Downcase(level);
      if lower == "collection" then "collection"
      else if lower == "file" then "file"
      else "container"
  }

  /** Downcasing yields a lower-case word exactly when the string spells it in any case. */
  lemma {:induction false} DowncaseMatches(s: string, word: string)
    requires forall i :: 0 <= i < |word| ==> LowerChar(word[i]) == word[i]
    ensures Downcase(s) == word <==> SpelledIgnoringCase(s, word)
  {
    var d := Downcase(s);
    if d == word {
      forall i | 0 <= i < |s| ensures s[i] == word[i] || s[i] == UpperChar(word[i]) {
        assert LowerChar(s[i]) == word[i];
      }
    }
    if SpelledIgnoringCase(s, word) {
      forall i | 0 <= i < |s| ensures d[i] == word[i] {
        assert LowerChar(word[i]) == word[i];
      }
    }
  }

  /** Sample levels choose their icons regardless of case. */
  lemma HeaderIconExamples(doc: Document)
    ensures DocumentHeaderIcon(doc.(level := Some("Collection"))) == "collection"
    ensures DocumentHeaderIcon(doc.(level := Some("FILE"))) == "file"
    ensures DocumentHeaderIcon(doc.(level := Some("series"))) == "container"
    ensures DocumentHeaderIcon(doc.(level := None)) == "container"
  {
  }

  // ---------------------------------------------------------------------
  // Search parameters
  // ---------------------------------------------------------------------

  /** A request parameter value: nil, a string, an array or a nested hash. */
  datatype Value = Nil | Str(s: string) | Arr(items: seq<Value>) | Hash(entries: map<string, Value>)

  /** The parameters of the current search, keyed by name. */
  type Params = map<string, Value>

  /** The error Ruby raises when an Array is indexed with a String. */
  datatype HelperError = TypeError

  /** The parameters of the current search, switched to grouped-by-collection results. */
  function SearchWithGroup(params: Params): (q: Params)
    ensures q.Keys == params.Keys + {"group"} - {"page"}
    ensures q["group"] == Str("true")
    ensures forall k :: k in q && k != "group" ==> q[k] == params[k]
  {
    params["group" := Str("true")] - {"page"}
  }

  /** The parameters of the current search, switched back to ungrouped results. */
  function SearchWithoutGroup(params: Params): (q: Params)
    ensures q.Keys == params.Keys - {"group", "page"}
    ensures forall k :: k in q ==> q[k] == params[k]
  {
    params - {"group", "page"}
  }

  /** The given search, restricted to one collection: its facet filters replaced by that collection. */
  function SearchWithinCollection(collectionName: string, search: Params): (q: Params)
    ensures q.Keys == search.Keys + {"f"}
    ensures q["f"] == Hash(map["collection_sim" := Arr([Str(collectionName)])])
    ensures forall k :: k in q && k != "f" ==> q[k] == search[k]
  {
    search["f" := Hash(map["collection_sim" := Arr([Str(collectionName)])])]
  }

  /**
   * Results are grouped when there is a search state whose `group` parameter
   * is "true": exactly when switching to grouped results would change
   * nothing but the page.
   */
  function Grouped(state: Option<Params>): (r: bool)
    ensures state.None? ==> !r
    ensures state.Some? ==> (r <==> SearchWithGroup(state.value) == state.value - {"page"})
  {
    match state
    case None => false
    case Some(params) =>
      if SearchWithGroup(params) == params - {"page"} then
        assert "group" in SearchWithGroup(params);
        "group" in params && params["group"] == Str("true")
      else
        "group" in params && params["group"] == Str("true")
  }

  /**
   * The "collections" view is active when there is a search state whose facet
   * filter `f` restricts `level_sim` to exactly ["Collection"]. No search state,
   * no `f`, or a nil `f` gives false; a string `f` gives false too (String#[]
   * answers a substring or nil, never an array); an array `f` raises.
   */
  function CollectionActive(state: Option<Params>): (r: Result<bool, HelperError>)
    ensures r.Err? <==> state.Some? && "f" in state.value && state.value["f"].Arr?
    ensures r == Ok(true) <==>
      && state.Some? && "f" in state.value && state.value["f"].Hash?
      && "level_sim" in state.value["f"].entries
      && state.value["f"].entries["level_sim"] == Arr([Str("Collection")])
  {
    match state
    case None => Ok(false)
    case Some(params) =>
      if "f" !in params then Ok(false)
      else
        match params["f"]
        case Nil => Ok(false)
        case Str(_) => Ok(false)
        case Arr(_) => Err(TypeError)
        case Hash(filters) =>
          Ok("level_sim" in filters && filters["level_sim"] == Arr([Str("Collection")]))
  }

  /** Switching grouping on, or off, twice is the same as doing it once. */
  lemma GroupToggleIdempotent(params: Params)
    ensures SearchWithGroup(SearchWithGroup(params)) == SearchWithGroup(params)
    ensures SearchWithoutGroup(SearchWithoutGroup(params)) == SearchWithoutGroup(params)
  {
  }

  /** Toggling grouping depends only on the parameters other than `group` and `page`. */
  lemma GroupToggleRoundTrip(params: Params)
    ensures SearchWithoutGroup(SearchWithGroup(params)) == SearchWithoutGroup(params)
    ensures SearchWithGroup(SearchWithoutGroup(params)) == SearchWithGroup(params)
  {
  }

  /** The toggles do what their names say, and leave the collection filter as it was. */
  lemma GroupTogglesGrouping(params: Params)
    ensures Grouped(Some(SearchWithGroup(params)))
    ensures !Grouped(Some(SearchWithoutGroup(params)))
    ensures CollectionActive(Some(SearchWithGroup(params))) == CollectionActive(Some(params))
    ensures CollectionActive(Some(SearchWithoutGroup(params))) == CollectionActive(Some(params))
  {
  }

  /** Searching within a collection keeps the grouping and drops a "collections only" filter. */
  lemma WithinCollectionFilters(collectionName: string, params: Params)
    ensures Grouped(Some(SearchWithinCollection(collectionName, params))) == Grouped(Some(params))
    ensures CollectionActive(Some(SearchWithinCollection(collectionName, params))) == Ok(false)
  {
  }

  // ---------------------------------------------------------------------
  // Metadata field rendering
  // ---------------------------------------------------------------------

  /** A configured metadata field, named by its index key. */
  datatype FieldConfig = FieldConfig(key: string)

  /**
   * `should_render_<accessor>?`: a field renders when Blacklight's display
   * rule for it holds and the record has a value for it. Both predicates
   * belong to Blacklight and are passed in.
   */
  function ShouldRenderField(
    doc: Document, field: FieldConfig,
    displayable: (FieldConfig, Document) -> bool,
    hasValue: (Document, FieldConfig) -> bool): bool
  {
    displayable(field, doc) && hasValue(doc, field)
  }

  /**
   * `fields_have_content?`: whether any of the configured fields (name,
   * configuration pairs, in configuration order) would render for the record.
   */
  function FieldsHaveContent(
    doc: Document, fields: seq<(string, FieldConfig)>,
    displayable: (FieldConfig, Document) -> bool,
    hasValue: (Document, FieldConfig) -> bool): (r: bool)
    ensures r <==> exists i :: 0 <= i < |fields| && displayable(fields[i].1, doc) && hasValue(doc, fields[i].1)
  {
    if fields == [] then false
    else if ShouldRenderField(doc, fields[0].1, displayable, hasValue) then true
    else
      FieldsHaveContent(doc, fields[1..], displayable, hasValue)
  }

  /** Adding fields can only turn "no content" into "content", never the reverse. */
  lemma {:induction false} FieldsHaveContentAppend(
    doc: Document, a: seq<(string, FieldConfig)>, b: seq<(string, FieldConfig)>,
    displayable: (FieldConfig, Document) -> bool,
    hasValue: (Document, FieldConfig) -> bool)
    ensures FieldsHaveContent(doc, a + b, displayable, hasValue)
      == (FieldsHaveContent(doc, a, displayable, hasValue) || FieldsHaveContent(doc, b, displayable, hasValue))
  {
    var ab := a + b;
    if FieldsHaveContent(doc, b, displayable, hasValue) {
      var i :| 0 <= i < |b| && displayable(b[i].1, doc) && hasValue(doc, b[i].1);
      assert ab[|a| + i] == b[i];
    }
    if FieldsHaveContent(doc, a, displayable, hasValue) {
      var i :| 0 <= i < |a| && displayable(a[i].1, doc) && hasValue(doc, a[i].1);
      assert ab[i] == a[i];
    }
    if FieldsHaveContent(doc, ab, displayable, hasValue) {
      var i :| 0 <= i < |ab| && displayable(ab[i].1, doc) && hasValue(doc, ab[i].1);
      if i < |a| {
        assert ab[i] == a[i];
      } else {
        assert ab[i] == b[i - |a|];
      }
    }
  }
}
