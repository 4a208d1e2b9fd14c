/**
 * `FileManager::append`: appending text to a file's contents, optionally only when a
 * pattern does or does not match those contents. The pattern's outcome on the contents
 * is an input; a pattern error counts as no match, as `false != 0` is false in PHP.
 */
module FileManager {
  import opened PhpString

  /** How `preg_match`'s outcome compares with the mode: 1 for a match, 0 otherwise. */
  function MatchCount(matched: bool): int {
    if matched then 1 else 0
  }

  /**
   * `append($fileContents, $content, $pattern, $mode)`: with an empty pattern the content
   * is appended; otherwise it is appended only when the match count equals the mode, so
   * mode 1 appends on a match, mode 0 on no match, and any other mode never.
   */
  function Append(fileContents: string, content: string, pattern: string, matched: bool, mode: int): (r: string)
    ensures PhpEmpty(pattern) ==> r == fileContents + content
    ensures !PhpEmpty(pattern) && mode == 1 ==> r == if matched then fileContents + content else fileContents
    ensures !PhpEmpty(pattern) && mode == 0 ==> r == if matched then fileContents else fileContents + content
    ensures !PhpEmpty(pattern) && mode != 0 && mode != 1 ==> r == fileContents
    ensures StartsWith(r, fileContents) && (r == fileContents || r[|fileContents|..] == content)
  {
    if !PhpEmpty(pattern) && MatchCount(matched) != mode then fileContents
    else fileContents + content
  }

  /**
   * The "append if absent" use: with mode 0, when the pattern matches the contents with
   * the text appended (`matches` says whether it matches a text), appending a second time
   * changes nothing, whether or not the first call appended.
   */
  lemma AppendIfAbsentOnce(fileContents: string, content: string, pattern: string, matches: string -> bool)
    requires !PhpEmpty(pattern) && matches(fileContents + content)
    ensures var once := Append(fileContents, content, pattern, matches(fileContents), 0);
      && once == (if matches(fileContents) then fileContents else fileContents + content)
      && Append(once, content, pattern, matches(once), 0) == once
  {
  }
}
