/** The character classes the repository takes from Go's package `unicode`.

    Their values on 7-bit characters are written out; above that the library's
    tables are a parameter, so every result holds whatever those tables say. */
module Unicode {
  datatype Tables = Tables(
    upper: char -> char,
    lower: char -> char,
    printable: char -> bool,
    space: char -> bool,
    letter: char -> bool,
    punct: char -> bool)
  {
    function ToUpper(c: char): char {
      if c >= '\U{80}' then upper(c) else if 'a' <= c <= 'z' then (c as int - 32) as char else c
    }

    function ToLower(c: char): char {
      if c >= '\U{80}' then lower(c) else if 'A' <= c <= 'Z' then (c as int + 32) as char else c
    }

    predicate IsPrint(c: char) {
      if c >= '\U{80}' then printable(c) else ' ' <= c <= '~'
    }

    predicate IsSpace(c: char) {
      if c >= '\U{80}' then space(c) else c == ' ' || '\t' <= c <= '\r'
    }

    predicate IsLetter(c: char) {
      if c >= '\U{80}' then letter(c) else 'a' <= c <= 'z' || 'A' <= c <= 'Z'
    }

    predicate IsPunct(c: char) {
      if c >= '\U{80}' then punct(c) else c in "!\"#%&'()*,-./:;?@[\\]_{}"
    }

    /** Category Cc: C0, DEL and C1. */
    predicate IsControl(c: char) {
      c < ' ' || '\U{7f}' <= c <= '\U{9f}'
    }
  }

  function One(b: bool): nat { if b then 1 else 0 }

  predicate IsDigit(c: char) { '0' <= c <= '9' }

  /** The 7-bit characters of the categories of symbols. */
  predicate IsSymbol(c: char) { c in "$+<=>^`|~" }

  /** A 7-bit character is in one class only: a control character, the space, a letter, a
      digit, punctuation or a symbol; all but the first are printable. The two cases of a
      letter are each other's. */
  lemma {:induction false} AsciiClasses(u: Tables, c: char)
    requires c < '\U{80}'
    ensures One(u.IsControl(c)) + One(c == ' ') + One(u.IsLetter(c)) + One(IsDigit(c)) + One(u.IsPunct(c))
      + One(IsSymbol(c)) == 1
    ensures u.IsPrint(c) <==> !u.IsControl(c)
    ensures u.IsSpace(c) ==> c == ' ' || u.IsControl(c)
    ensures u.IsLetter(c) <==> u.ToUpper(c) != u.ToLower(c)
    ensures u.ToUpper(u.ToLower(c)) == u.ToUpper(c) && u.ToLower(u.ToUpper(c)) == u.ToLower(c)
  {
  }
}
