/** Upper-casing of an issue's state ("open" becomes "OPEN"). */
module Ascii {

  predicate IsLower(c: char) {
    'a' <= c <= 'z'
  }

  function UpperChar(c: char): (u: char)
    ensures !IsLower(u)
    ensures IsLower(c) ==> u as int == c as int - 32
    ensures !IsLower(c) ==> u == c
  {
    if IsLower(c) then (c as int - 32) as char else c
  }

  /** `strings.ToUpper` on ASCII letters: every lower-case letter becomes
      its capital and every other character is kept. */
  function ToUpper(s: string): (r: string)
    ensures |r| == |s|
    ensures forall k :: 0 <= k < |s| ==> r[k] == UpperChar(s[k])
  {
    if s == [] then [] else [UpperChar(s[0])] + ToUpper(s[1..])
  }

  /** No lower-case letter is left, and upper-casing twice changes nothing. */
  lemma ToUpperIdempotent(s: string)
    ensures forall k :: 0 <= k < |ToUpper(s)| ==> !IsLower(ToUpper(s)[k])
    ensures ToUpper(ToUpper(s)) == ToUpper(s)
  {
  }

  /** The two states the tracker reports. */
  lemma ToUpperStates()
    ensures ToUpper("open") == "OPEN"
    ensures ToUpper("closed") == "CLOSED"
  {
  }
}
