/** `isspace` and `toupper` of the "C" locale, on ASCII. */
module Chars {

  /** Space, tab, newline, vertical tab, form feed, carriage return. */
  predicate IsSpace(c: char) {
    c == ' ' || c == '\t' || c == '\n' || c == '\U{0B}' || c == '\U{0C}' || c == '\r'
  }

  function ToUpper(c: char): (u: char)
    ensures 'a' <= c <= 'z' ==> u as int == c as int - 32
    ensures !('a' <= c <= 'z') ==> u == c
    ensures !IsSpace(c) ==> !IsSpace(u)
  {
    if 'a' <= c <= 'z' then (c as int - 32) as char else c
  }
}
