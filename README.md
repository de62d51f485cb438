# Arclight view helpers, modelled in Dafny

Arclight is a Rails engine that adds finding-aid presentation to a
Blacklight discovery application. Its generic helper module
(`app/helpers/arclight_helper.rb`) holds the small pieces of logic that
shape what a result or record page shows:

- **breadcrumb trails** built from a record's ancestor list (root
  collection first): the full trail, the compact trail of an ungrouped
  result, the component-context trail and its top-level variant, each
  starting (or not) with the repository entry;
- **search-parameter shaping** for the grouped / ungrouped toggle and for
  searching within one collection, and the two predicates that read the
  current search state (`grouped?`, `collection_active?`);
- the **header icon** chosen from a record's level;
- the **field predicates** deciding whether a metadata field, or any of a
  block of fields, renders.

All of these are pure functions of their inputs, so the model is
functional: datatypes, functions with contracts, and lemmas.

Files:

- `wrappers.dfy` — `Option` (Ruby's nil) and `Result` (a raised error).
- `markup.dfy` — module `Markup`: the rendered entries of a trail
  (`Link`, an unlinked `Span`, the unlinked `Ellipsis`, the `Separator`)
  and Rails' `safe_join`, which flattens the array it receives and puts the
  separator between neighbours. `Entries` reads the entries back out of a
  joined trail; joining and reading back are proved inverse to each other.
- `arclight_helper.dfy` — module `ArclightHelper`: the helpers themselves.

How the model reads the source:

- A trail is a `seq<Crumb>`: the entries with `Separator` between them,
  exactly what `safe_join` produces once HTML is abstracted away. The
  array pushed whole into the breadcrumb list is a `Many` piece that
  `Flatten` splices in, as `Array#flatten` does inside `safe_join`.
- A helper that returns nil returns `None`.
- The record's ancestor list is a field of `Document` (`parents`): it is
  computed from the indexed record by the ancestor parser, which is not part
  of this model.
- Search parameters are a `map<string, Value>`, where a `Value` is nil, a
  string, an array or a nested hash. Keys are strings: Blacklight hands out
  the search parameters as a hash with indifferent access, so the symbol key
  `f:` merged in by `search_within_collection` is the key `"f"`.
- A missing search state is `None`; `grouped?` and `collection_active?`
  answer false for it instead of failing.
- `collection_active?` raises `TypeError` when the `f` parameter is an
  array, because `Array#[]` refuses a string index. The model returns
  `Err(TypeError)` in that case. A string `f` gives false, because
  `String#[]` answers a substring or nil, never an array.
- `present?` on the repository slug means not nil and not made only of
  Unicode white space, the `[[:space:]]` class behind Rails' `blank?`.

Behaviour of the code worth knowing:

- The repository entry is a link only when the repository's slug is
  present. Otherwise it is an unlinked span.
- No trail contains the record itself. A record with N ancestors has a full
  trail of N + 1 entries: the repository entry and the N ancestors.
- The compact trail links the first ancestor (index 0) without checking its
  level.
- The top-level component trail puts a separator between the link and the
  ellipsis.
- The component trail keeps at most 999 ancestors after the root.

## Model

| member | source | states |
|---|---|---|
| `ArclightHelper.ParentLinks` | app/helpers/arclight_helper.rb:13-15 | one link per ancestor, same count and same order, each labelled with the ancestor's title and pointing at its record |
| `ArclightHelper.LinksAreEntries` | app/helpers/arclight_helper.rb:11-15 | the repository entry and the ancestor links are never a separator or an ellipsis |
| `ArclightHelper.BuildRepositoryLink` | app/helpers/arclight_helper.rb:239-246 | a link to the repository page exactly when the slug is present, an unlinked span otherwise; labelled with the repository name in both cases |
| `ArclightHelper.BlankSlugGivesSpan` | app/helpers/arclight_helper.rb:241-244 | a slug made only of blanks gives the unlinked span |
| `ArclightHelper.ParentsToLinks` | app/helpers/arclight_helper.rb:8-18 | the joined trail has 1 + \|parents\| entries: the repository entry first, then each ancestor's link in root-to-leaf order, with separators exactly between them |
| `ArclightHelper.RegularCompactBreadcrumbs` | app/helpers/arclight_helper.rb:28-42 | the repository entry, then the first ancestor's link if any; the unlinked ellipsis appears if and only if there are two or more ancestors, and then as the third and last entry; never more than three entries |
| `ArclightHelper.ComponentParentsToLinks` | app/helpers/arclight_helper.rb:46-52 | nil exactly when there is at most one ancestor; otherwise the links to the ancestors from index 1 on, in order, capped at 999, with no root link and no ellipsis |
| `ArclightHelper.ComponentTopLevelParentToLinks` | app/helpers/arclight_helper.rb:56-69 | nil exactly when there is at most one ancestor; the link to the second ancestor alone when there are two; that link, a separator and the ellipsis when there are more |
| `ArclightHelper.CompactIsPrefixOfFull` | app/helpers/arclight_helper.rb:8-42 | the compact trail starts like the full trail, through the first ancestor's link, and equals the full trail when there is at most one ancestor |
| `ArclightHelper.ComponentTrailIsTailOfFull` | app/helpers/arclight_helper.rb:8-52 | the component trail is the full trail without the repository entry and the root ancestor, up to the 999-ancestor cap |
| `ArclightHelper.TopLevelStartsComponentTrail` | app/helpers/arclight_helper.rb:46-69 | the top-level component trail starts with the component trail's first link, and equals the component trail when there are exactly two ancestors |
| `ArclightHelper.Downcase` | app/helpers/arclight_helper.rb:160 | the lower-cased level has the same length, each upper-case ASCII letter lowered and every other character kept |
| `ArclightHelper.DowncaseMatches` | app/helpers/arclight_helper.rb:160-164 | the lower-cased level equals a lower-case word if and only if the level is that word with any of its letters written in upper case instead |
| `ArclightHelper.DocumentHeaderIcon` | app/helpers/arclight_helper.rb:159-168 | always one of collection, file, container; collection if and only if the level is "collection" with any of its letters in upper case, file if and only if it is such a variant of "file"; a missing level gives container |
| `ArclightHelper.HeaderIconExamples` | app/helpers/arclight_helper.rb:159-168 | "Collection" gives collection, "FILE" gives file, "series" and a missing level give container |
| `ArclightHelper.SearchWithGroup` | app/helpers/arclight_helper.rb:112-114 | `group` is set to "true", `page` is removed, and every other key keeps its value |
| `ArclightHelper.SearchWithoutGroup` | app/helpers/arclight_helper.rb:116-118 | exactly `group` and `page` are removed; every other key keeps its value |
| `ArclightHelper.SearchWithinCollection` | app/helpers/arclight_helper.rb:120-122 | `f` becomes the single filter `collection_sim` = [name]; every other key keeps its value |
| `ArclightHelper.Grouped` | app/helpers/arclight_helper.rb:108-110 | false without a search state; with one, true if and only if switching to grouped results would change nothing but the page |
| `ArclightHelper.CollectionActive` | app/helpers/arclight_helper.rb:96-98 | raises if and only if a search state exists whose `f` is an array; true if and only if a search state exists whose `f` is a hash with `level_sim` equal to ["Collection"]; false in every other case, a missing search state included |
| `ArclightHelper.GroupToggleIdempotent` | app/helpers/arclight_helper.rb:112-118 | applying either toggle twice is the same as applying it once |
| `ArclightHelper.GroupToggleRoundTrip` | app/helpers/arclight_helper.rb:112-118 | each toggle undoes the other: the result depends only on the keys other than `group` and `page` |
| `ArclightHelper.GroupTogglesGrouping` | app/helpers/arclight_helper.rb:96-118 | the grouped parameters are grouped, the ungrouped ones are not, and neither toggle changes whether the collection filter is active |
| `ArclightHelper.WithinCollectionFilters` | app/helpers/arclight_helper.rb:96-122 | searching within a collection keeps the grouping and never leaves the collection-level filter active |
| `ArclightHelper.FieldsHaveContent` | app/helpers/arclight_helper.rb:137-141 | true if and only if some configured field passes both Blacklight's display rule and the value check, the conjunction that the generated `should_render_<field>?` helpers compute |
| `ArclightHelper.FieldsHaveContentAppend` | app/helpers/arclight_helper.rb:137-141 | the answer for two field lists together is the "or" of the answers for each |
| `Markup.FlattenOne` | app/helpers/arclight_helper.rb:49-51 | flattening an array of one piece gives that piece's crumbs |
| `Markup.FlattenTwo` | app/helpers/arclight_helper.rb:9-17 | flattening the repository entry and the pushed array of links gives the entry followed by the links |
| `Markup.FlattenThree` | app/helpers/arclight_helper.rb:29-41 | flattening an array of three pieces concatenates their crumbs in order |
| `Markup.Intersperse` | app/helpers/arclight_helper.rb:17 | the joined trail has 2n - 1 elements for n items: item k at position 2k, the separator at every odd position |
| `Markup.EntriesOfIntersperse` | app/helpers/arclight_helper.rb:17 | reading the entries back out of a joined trail gives the joined items |
| `Markup.IntersperseSeparated` | app/helpers/arclight_helper.rb:17 | joining items that contain no separator gives separators at exactly the odd positions |
| `Markup.IntersperseMembers` | app/helpers/arclight_helper.rb:17 | joining neither adds nor loses anything except separators |
| `Markup.IntersperseOfEntries` | app/helpers/arclight_helper.rb:17 | re-joining the entries of a joined trail rebuilds the trail exactly |
| `Markup.Joined` | app/helpers/arclight_helper.rb:17 | a joined trail is in joined form, gives back its items, and contains exactly the items plus separators |
| `Markup.SeparatedSlice` | app/helpers/arclight_helper.rb:17 | a slice of a joined trail from one entry to another is the joined trail of those entries |
| `Markup.SeparatedByEntries` | app/helpers/arclight_helper.rb:17 | two joined trails with the same entries are equal |

## Left out

- HTML production is not modelled: the markup that `link_to`, `content_tag` and `safe_join` build, HTML escaping, and the text of the translated separator. Links, spans, the ellipsis and the separator are abstract values.
- Path helpers are not modelled: `solr_document_path` and the engine's `repository_path` are represented by the target kept in each link.
- The ancestor parser (`Arclight::Parents`) is not part of this model. Its output is the `parents` input.
- `normalize_id` is not modelled. It wraps `Arclight::NormalizedId`, which is not part of this model.
- `repository_faceted_on` is not modelled. It reads the request's facets and looks the repository up in a database.
- `repository_collections_path` is not modelled. It is only a URL builder.
- `collection_count` is not modelled. It reads the Solr response.
- `on_repositories_show?`, `on_repositories_index?` and `hierarchy_component_context?` are not modelled. They read controller, action and request state.
- `custom_show_content_classes`, `collection_active_class` and `repositories_active_class` are not modelled. They return constant CSS class strings.
- `render_grouped_documents` is not modelled. It renders partials.
- Blacklight's configuration and label helpers are not modelled. These are the generated field-list and label helpers and `generic_render_document_field_label`. The generated `should_render_<field>?` is `ShouldRenderField`. `generic_document_fields` and `generic_should_render_field?` are plain dispatch, modelled by passing the field list and the two predicates directly. Blacklight's display rule and value check are themselves function parameters.
- `search_with_group` and `search_without_group` take the search parameters directly. The source reads them from the search state and fails when there is none. That failure is not modelled.
- The sibling window and highlighting around a component are not modelled. Their implementation is not part of this model.
- The search-builder parameter rules are not modelled. `Arclight::SearchBehavior` is not part of this model.
- Digital-object serialisation is not modelled. `Arclight::DigitalObject` is not part of this model.
- ArclightHelper.Downcase: lowers only the ASCII letters, not Ruby's full Unicode case mapping. The icon choice is unaffected: it compares the result with "collection" and "file", and no other upper-case character lowers to exactly one of their letters.
- Parameter values other than nil, strings, arrays and hashes (numbers, booleans, symbols) are not modelled. Symbol keys as distinct from string keys are not modelled either.
