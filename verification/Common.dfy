/**
 What several components share: optional values, and the white space of the C locale.
 */
module Common {
  datatype Option<+T> = None | Some(value: T)

  /** std::isspace. */
  predicate IsSpace(c: char) {
    c == ' ' || 9 <= c as int <= 13
  }

  /** The white space strtol and its kin skip in front of a number. */
  function SkipSpace(s: string): string {
    if s != "" && IsSpace(s[0]) then SkipSpace(s[1..]) else s
  }
}
