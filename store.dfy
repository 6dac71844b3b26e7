/**
 * The WordPress data the article API reads, as one immutable value: the
 * posts table, user display names, the optional custom-field provider,
 * post meta, and the optional `cz_volume_items` membership table. The
 * read functions give WordPress's own answers for a missing entry.
 */
module Store {
  import opened Runtime

  /**
   * A row of the posts table. `title` is what `get_the_title` yields for the
   * post (after WordPress's title filters, hence any PHP value).
   */
  datatype Post = Post(
    id: int,
    slug: string,
    postType: string,
    status: string,
    authorId: int,
    title: Value,
    content: string)

  /** A row of `cz_volume_items`. `isPrimary` is read only when the column exists. */
  datatype VolumeItem = VolumeItem(id: int, postId: int, volumeId: int, position: int, isPrimary: int)

  /** The membership table: whether it has the `is_primary` column, and its rows. */
  datatype VolumeTable = VolumeTable(hasPrimaryColumn: bool, rows: seq<VolumeItem>)

  /**
   * `customFields` is `None` when `get_field` does not exist (the custom-field
   * plugin is not active); `volumeItems` is `None` when the table is missing.
   * Both field maps are keyed by post id and field name.
   */
  datatype Store = Store(
    posts: seq<Post>,
    displayNames: map<int, Value>,
    customFields: Option<map<(int, string), Value>>,
    postMeta: map<(int, string), Value>,
    volumeItems: Option<VolumeTable>)

  /** `get_the_author_meta('display_name', id)`: '' for an unknown user. */
  function DisplayName(store: Store, authorId: int): Value {
    if authorId in store.displayNames then store.displayNames[authorId] else Str("")
  }

  /** `get_field(name, id)` of an active provider: null (not a string) when the field is unset. */
  function CustomField(fields: map<(int, string), Value>, id: int, name: string): Value {
    if (id, name) in fields then fields[(id, name)] else NonString
  }

  /** `get_post_meta(id, key, true)`: '' when the key is unset. */
  function PostMeta(store: Store, id: int, key: string): Value {
    if (id, key) in store.postMeta then store.postMeta[(id, key)] else Str("")
  }

  /** Whether some post with this id has the given type (the join of the volume query). */
  predicate HasPostOfType(posts: seq<Post>, id: int, postType: string) {
    exists k :: 0 <= k < |posts| && posts[k].id == id && posts[k].postType == postType
  }

  /** `get_the_title(id)`: the title of the post with that id, '' when there is none. */
  function TitleById(posts: seq<Post>, id: int): Value {
    if posts == [] then Str("")
    else if posts[0].id == id then posts[0].title
    else TitleById(posts[1..], id)
  }
}
