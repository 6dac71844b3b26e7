/**
 * The parts of PHP and WordPress that the article API calls but does not
 * define. PHP values are reduced to what the plugin inspects about them
 * (whether `is_string` holds), and the foreign library functions are
 * fields of a `Host` value, so that every result proved about the
 * plugin holds for every behaviour of those functions.
 */
module Runtime {

  datatype Option<T> = None | Some(value: T)

  /** A PHP value as the plugin sees it: a string, or anything else. */
  datatype Value = Str(s: string) | NonString

  /**
   * The character class `\s` of a `/u` regular expression. Its exact
   * Unicode extent is left abstract; it contains at least the ASCII space.
   */
  type SpaceClass = f: char -> bool | f(' ') witness (c: char) => c == ' '

  /**
   * The foreign functions the plugin relies on:
   *  - `entityDecode`: `html_entity_decode($v, ENT_QUOTES | ENT_HTML5, 'UTF-8')`
   *  - `stripAllTags`: `wp_strip_all_tags($v, true)`
   *  - `acceptsUtf8`: whether `preg_replace` with the `/u` flag accepts its
   *    subject (it returns null on a subject that is not valid UTF-8)
   *  - `isSpace`: the `\s` class under `/u`
   *  - `renderContent`: the `the_content` filter chain
   */
  datatype Host = Host(
    entityDecode: string -> string,
    stripAllTags: string -> string,
    acceptsUtf8: string -> bool,
    isSpace: SpaceClass,
    renderContent: string -> string)

  /** PHP `absint`: the absolute value of an integer. */
  function Absint(x: int): (r: nat)
    ensures r == x || r == -x
    ensures r == 0 <==> x == 0
  {
    if x < 0 then -x else x
  }
}
