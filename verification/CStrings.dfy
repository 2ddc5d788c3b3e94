/** The C strings that text becomes on its way into files and SQL statements (strdup_cfstr in darwinxref/cfutils.c). */
module CStrings {

  const NUL := '\0'

  /** The part of a string that a C string keeps. */
  function CString(s: string): (c: string)
    ensures NUL !in c
    ensures NUL !in s ==> c == s
  {
    if s == [] || s[0] == NUL then [] else [s[0]] + CString(s[1..])
  }
}
