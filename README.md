# CZ Article API — a Dafny model of the article lookup pipeline

The plugin `cz-article-api.php` serves `GET cz-article-api/v1/post/<slug>`.
Its class `CZ_Article_API` validates the slug, finds the first published post
with that slug and assembles a JSON record from several sources:

- the author's display name;
- a subtitle, from a custom-field provider with a fallback to post meta;
- the title of the post's primary volume, from the `cz_volume_items`
  membership table under a fixed SQL ordering;
- the title and the rendered body.

Every text field except the body goes through `normalize_plain_text`. This
decodes entities, strips tags, collapses whitespace runs and trims.

Every method of the class computes a value from its arguments and from
WordPress reads, so the model is made of pure functions:

- `runtime.dfy` (`Runtime`):
  - PHP values as far as the plugin inspects them, that is a string or
    anything else;
  - `absint`;
  - a `Host` record holding the foreign functions as arrow-typed fields:
    entity decoding, tag stripping, PCRE's UTF-8 acceptance, the `\s` class
    and the `the_content` filter chain.

  Every property below therefore holds for every behaviour of those functions.
- `store.dfy` (`Store`): the WordPress data the plugin reads, as one value.
  - This covers the posts, display names, the optional custom-field provider,
    post meta and the optional membership table with its `is_primary` flag.
  - Readers return WordPress's answer for a missing entry: `''` from
    `get_post_meta` and `get_the_author_meta`, null from `get_field`, and
    `''` from `get_the_title` for an unknown id.
- `plain_text.dfy` (`PlainText`): `normalize_plain_text`.
  - The `\s+` collapse and PHP `trim` are written out exactly. `trim` keeps
    its own character set ` \t\n\r\0\x0B`, which differs from `\s`.
  - The lemmas cover the output's shape, the characters kept, the
    fixpoints, and idempotence of the collapse-and-trim stage.
- `article_api.dfy` (`ArticleApi`): the request pipeline.
  - This covers the slug check, the post lookup, the author, subtitle and
    volume resolvers, and the response assembly.
  - The volume query's `ORDER BY … LIMIT 1` is a recursive best-row function
    over the membership rows.
- `scenarios.dfy` (`Scenarios`): concrete requests stated as lemmas under a
  host whose decoder and stripper leave text unchanged. It also holds a
  counterexample to idempotence of the whole normaliser.

## Model

| member | source | states |
|---|---|---|
| Store.DisplayName | cz-article-api.php:97 | `get_the_author_meta('display_name', …)`, `''` for an unknown user |
| Store.CustomField | cz-article-api.php:110 | `get_field('sottotitolo', …)`, null when the field is unset |
| Store.PostMeta | cz-article-api.php:117 | `get_post_meta(…, 'sottotitolo', true)`, `''` when the key is unset |
| Store.HasPostOfType | cz-article-api.php:153-155 | the `INNER JOIN` on the posts table with `post_type = 'volume'` |
| Store.TitleById | cz-article-api.php:167 | `get_the_title(id)`, `''` for an id with no post |
| Runtime.Absint | cz-article-api.php:102 | `absint` is the absolute value, 0 exactly for 0 |
| PlainText.Normalize | cz-article-api.php:171-181 | a non-string gives `''`; a string is decoded, stripped and then collapsed and trimmed, unless PCRE rejects the stripped text, which gives `''`; every result is clean: whitespace only as single spaces, no two adjacent, nothing `trim` or `\s` would remove at either end |
| PlainText.IsTrimChar | cz-article-api.php:180 | the characters PHP's `trim` removes by default: space, `\t`, `\n`, `\r`, NUL and `\x0B` |
| PlainText.Collapse | cz-article-api.php:178 | `preg_replace('/\s+/u', ' ', …)`: each maximal `\s` run becomes one space (its properties are the lemmas below) |
| PlainText.CollapseTrim | cz-article-api.php:178-180 | the collapse-then-trim stage always yields a clean string with no whitespace at either end |
| PlainText.SkipSpaces | cz-article-api.php:178 | after skipping a whitespace run, the rest is no longer than the input and does not start with whitespace |
| PlainText.SkipSpacesDropsRun | cz-article-api.php:178 | what is skipped is a whitespace prefix, and the rest is the matching suffix |
| PlainText.TrimLeft | cz-article-api.php:180 | `ltrim` keeps a suffix, drops only trim characters, and what it keeps does not start with one |
| PlainText.TrimRight | cz-article-api.php:180 | `rtrim` keeps a prefix, drops only trim characters, and what it keeps does not end with one |
| PlainText.Trim | cz-article-api.php:180 | `trim`'s result is no longer than its input and neither starts nor ends with a trim character |
| PlainText.TrimIsInfix | cz-article-api.php:180 | `trim` keeps the infix that starts where `ltrim` stops |
| PlainText.TrimRemovesTrimChars | cz-article-api.php:180 | everything `trim` removes, at either end, is a trim character |
| PlainText.TrimRightOfSuffix | cz-article-api.php:180 | right-trimming a suffix keeps an infix followed only by trim characters |
| PlainText.SkipSpacesKeepsNonSpaces | cz-article-api.php:178 | skipping a whitespace run loses no other character |
| PlainText.CollapseIsCollapsed | cz-article-api.php:178 | the collapse's output is collapsed, is empty exactly when its input is, and starts with whitespace exactly when its input does |
| PlainText.CollapseKeepsNonSpaces | cz-article-api.php:178 | the collapse keeps every non-whitespace character, in order |
| PlainText.SkipSpacesOfRun | cz-article-api.php:178 | skipping spaces over a whitespace prefix stops exactly at what follows it |
| PlainText.SkipSpacesConcat | cz-article-api.php:178 | in `u + x` with `u` ending in a non-whitespace character, skipping spaces stops inside `u` |
| PlainText.CollapseOfRun | cz-article-api.php:178 | a non-empty whitespace run followed by a non-whitespace character (or nothing) becomes exactly one space |
| PlainText.CollapseConcat | cz-article-api.php:178 | the collapse works run by run: after a non-whitespace character, the collapse of a concatenation is the concatenation of the collapses |
| PlainText.InfixCollapsed | cz-article-api.php:178-180 | any infix of a collapsed string is collapsed |
| PlainText.TrimKeepsCollapsed | cz-article-api.php:178-180 | trimming a collapsed string leaves it collapsed |
| PlainText.CleanEnds | cz-article-api.php:178-180 | a clean string has no `\s` character at either end |
| PlainText.CollapseFixpoint | cz-article-api.php:178 | the collapse leaves a string unchanged if and only if it is already collapsed |
| PlainText.TrimFixpoint | cz-article-api.php:180 | `trim` leaves a string unchanged if and only if neither end is a trim character |
| PlainText.CollapseTrimFixpoint | cz-article-api.php:178-180 | collapse-and-trim leaves a string unchanged if and only if it is clean |
| PlainText.CollapseTrimIdempotent | cz-article-api.php:178-180 | collapse-and-trim applied twice equals applied once |
| PlainText.NormalizeOutputIsStable | cz-article-api.php:171-181 | collapse-and-trim changes nothing in the normaliser's output, whatever the decoder and stripper did |
| ArticleApi.IsPublishedPost | cz-article-api.php:76-78 | the query's filter: this slug, type `post`, status `publish` |
| ArticleApi.FirstPublishedIndex | cz-article-api.php:73-92 | the index is that of the first post with the slug, type `post` and status `publish`, or the length when none matches |
| ArticleApi.FindPublishedPostBySlug | cz-article-api.php:73-94 | nothing exactly when no post matches; otherwise a post from the store that matches |
| ArticleApi.FindPublishedPostIsFirstMatch | cz-article-api.php:74-92 | the lookup returns precisely the first matching post |
| ArticleApi.AuthorName | cz-article-api.php:96-99 | a string display name gives its normalised form, anything else `''`; the author is always a clean string |
| ArticleApi.FieldSubtitle | cz-article-api.php:109-114 | the provider's value when the provider exists and answers with a string, `''` otherwise |
| ArticleApi.MetaSubtitle | cz-article-api.php:116-121 | the post-meta value when it is a string, `''` otherwise |
| ArticleApi.Subtitle | cz-article-api.php:101-124 | a post id that `absint`s to 0 gives `''`; a non-empty custom field string wins and is normalised; the result is always clean |
| ArticleApi.SubtitleIgnoresMetaWhenFieldSet | cz-article-api.php:109-121 | with a non-empty custom-field subtitle, changing post meta does not change the subtitle |
| ArticleApi.SubtitleFallsBackToMeta | cz-article-api.php:109-123 | with no provider, a non-string field or `''`, the subtitle is the normalised meta value when it is a string, and the normalised `''` otherwise |
| ArticleApi.Before | cz-article-api.php:147 | the strict order `is_primary DESC, position ASC, id ASC`, or `position ASC, id ASC` without the column |
| ArticleApi.IsCandidate | cz-article-api.php:151-155 | a row of this post whose volume is a post of type `volume` |
| ArticleApi.BestIndex | cz-article-api.php:147-161 | the chosen row is a candidate (this post, volume of type `volume`), none is strictly before it under the query's order, it precedes every earlier candidate; the length exactly when there is no candidate |
| ArticleApi.WinningRow | cz-article-api.php:147-161 | none exactly when no row is a candidate; otherwise a candidate row of the table that no candidate precedes |
| ArticleApi.PrimaryVolumeTitle | cz-article-api.php:126-169 | `''` for a post id that `absint`s to 0, a missing table, or no winning row; always clean |
| ArticleApi.VolumeTitleIsWinnersTitle | cz-article-api.php:149-168 | the volume title is the normalised title of the winning row's volume, and `''` when its volume id is 0 |
| ArticleApi.BeforeIsTotal | cz-article-api.php:147 | the query's order decides between any two rows with different ids |
| ArticleApi.WinnerHasHighestFlag | cz-article-api.php:147 | with `is_primary`, no candidate has a higher flag than the winner |
| ArticleApi.FlaggedRowWins | cz-article-api.php:147 | with `is_primary` and 0/1 flags, a flagged candidate makes the winner flagged, whatever the positions |
| ArticleApi.WinnerHasLeastPosition | cz-article-api.php:147 | without `is_primary`, the winner has the least position, and the least id among equal positions |
| ArticleApi.WinnerIndependentOfRowOrder | cz-article-api.php:149-161 | with unique row ids, the winner depends only on which rows the table holds, not on their order |
| ArticleApi.OrNull | cz-article-api.php:66-68 | null exactly for `''`, otherwise the string itself |
| ArticleApi.GetPostBySlug | cz-article-api.php:39-71 | an empty slug gives `cz_article_api_invalid_slug` with 400; no match gives `cz_article_api_not_found` with 404; success exactly when the slug is non-empty and a post matches, and every success is well formed (clean strings, null in place of `''`) |
| ArticleApi.EmptySlugReadsNothing | cz-article-api.php:40-48 | the reply to an empty slug does not depend on the store or the host |
| ArticleApi.ResponseComesFromFirstMatch | cz-article-api.php:50-70 | a success is built from the first matching post: author, title, rendered body, and subtitle and volume that are null exactly when they resolve to `''` |
| Scenarios.MyArticleScenario | cz-article-api.php:39-71 | post 42 titled "  Hello   World  " with no subtitle and no table gives title "Hello World" and null subtitle and volume |
| Scenarios.PaddedWordsNormalize | cz-article-api.php:178-180 | two words padded with runs of spaces normalise to the words joined by one space |
| Scenarios.RejectedRequests | cz-article-api.php:42-57 | an empty slug gives 400; a draft or a page with the slug gives 404 |
| Scenarios.FieldBeatsMeta | cz-article-api.php:109-116 | field "A" and meta "B" give "A" |
| Scenarios.MetaAlone | cz-article-api.php:116-121 | no field and meta "B" give "B" |
| Scenarios.NoSubtitle | cz-article-api.php:107-123 | neither field nor meta gives `''` |
| Scenarios.BlankFieldBeatsMeta | cz-article-api.php:111-123 | a whitespace-only field still beats meta "B", then normalises to `''` |
| Scenarios.SubtitleReplyScenarios | cz-article-api.php:59-66 | the reply keeps subtitle "A" and turns an empty one into null |
| Scenarios.PositionDecidesWithoutFlag | cz-article-api.php:147-168 | without `is_primary`, the row at position 1 beats the row at position 2 |
| Scenarios.FlagDecidesOverPosition | cz-article-api.php:147-168 | with `is_primary`, a flagged row at position 5 beats an unflagged row at position 1 |
| Scenarios.NormalizeIsNotIdempotent | cz-article-api.php:176-180 | for a decoder that removes one level of escaping, normalising "&amp;lt;" twice differs from normalising it once |

## Left out

- Hook and route registration, the `sanitize_title` callback on the route
  argument and the object construction (cz-article-api.php:17-37, 184) are
  framework plumbing. The model starts from the slug string the callback
  receives.
- `WP_Query` internals are not modelled. The posts sequence is taken to be
  in the order the query returns. The `instanceof WP_Post` test
  (cz-article-api.php:93) always holds for a posts query and is not
  modelled.
- The SQL text and `SHOW TABLES` / `SHOW COLUMNS` introspection are
  represented by the table being present (`Some`) and by
  `hasPrimaryColumn`. SQL NULL values in `position` or `is_primary` are not
  modelled: the columns are integers.
- ArticleApi.BestIndex: rows that tie on every sort key (possible only with
  duplicate ids) go to the earliest row. SQL leaves that order unspecified.
  WinnerIndependentOfRowOrder shows that with unique ids the order does not
  matter.
- `html_entity_decode`, `wp_strip_all_tags` and the `the_content` filters
  are foreign functions. They are `Host` fields with no properties assumed.
- The exact Unicode extent of `\s` under `/u` is abstract. It is known only
  to contain the ASCII space.
- `__()` translation is not modelled: the error messages are the untranslated
  Italian strings.
- `WP_Error` and `rest_ensure_response` are represented by the `Reply`
  datatype.
- Runtime.Absint: PHP integer width is not modelled. `absint` of the
  smallest 64-bit integer overflows in PHP, but ids here are unbounded.
- Dispatch by numeric id and the tag list are not part of this source file
  and are not modelled.
- PHP strings are byte strings. The model uses sequences of code points.
  `Host.acceptsUtf8` stands for PCRE's byte-level UTF-8 check under `/u`.
  Once PCRE accepts the subject it is valid UTF-8. Every character `trim`
  removes is a single ASCII byte, and no such byte occurs inside a
  multi-byte sequence. So `trim` on bytes agrees with the model's `trim` on
  code points.

## Notes

The whole normaliser is not idempotent. Only its collapse-and-trim stage is,
for every decoder and stripper (`PlainText.CollapseTrimIdempotent` and
`PlainText.NormalizeOutputIsStable`). Entity decoding removes one level of
escaping per pass, so "&amp;lt;" becomes "&lt;" and then "<".
`Scenarios.NormalizeIsNotIdempotent` shows this with such a decoder.
