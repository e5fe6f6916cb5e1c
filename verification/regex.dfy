/** Just enough of ECMAScript regular expressions to give the audio path's
    pattern `/```json?|```/` its meaning: literals, concatenation, disjunction
    and the greedy `?`. A pattern denotes, at each start position, the list of
    end positions its backtracking matcher reaches, in the order it tries them
    (section 22.2.2 of ECMA-262); a match attempt succeeds with the first. */
module Regex {
  import opened Text

  datatype Option<T> = None | Some(value: T)

  datatype Regex =
    | Lit(word: string)                 // the characters of `word`, in order
    | Then(first: Regex, second: Regex) // `first` followed by `second`
    | Or(left: Regex, right: Regex)     // `left|right`, left tried first
    | Maybe(body: Regex)                // greedy `body?`: body tried first

  /** End positions of the matches of `re` that start at position `i` of `s`,
      in backtracking order. */
  function Ends(re: Regex, s: string, i: nat): (ends: seq<nat>)
    requires i <= |s|
    ensures forall k :: 0 <= k < |ends| ==> i <= ends[k] <= |s|
    decreases re, 0
  {
    match re
    case Lit(w) => if StartsWith(s[i..], w) then [i + |w|] else []
    case Then(a, b) => EndsAfter(Ends(a, s, i), b, s, i)
    case Or(a, b) => Ends(a, s, i) + Ends(b, s, i)
    case Maybe(a) => Ends(a, s, i) + [i]
  }

  /** The ends of `re` continued from each of `starts` in turn. */
  function EndsAfter(starts: seq<nat>, re: Regex, s: string, lo: nat): (ends: seq<nat>)
    requires forall k :: 0 <= k < |starts| ==> lo <= starts[k] <= |s|
    ensures forall k :: 0 <= k < |ends| ==> lo <= ends[k] <= |s|
    decreases re, 1, |starts|
  {
    if starts == [] then []
    else Ends(re, s, starts[0]) + EndsAfter(starts[1..], re, s, lo)
  }

  /** The end of the match a matcher started at `i` reports, if any. */
  function MatchFrom(re: Regex, s: string, i: nat): (m: Option<nat>)
    requires i <= |s|
    ensures m.Some? ==> i <= m.value <= |s|
  {
    var ends := Ends(re, s, i);
    if ends == [] then None else Some(ends[0])
  }

  /** `/```json?|```/`: three backticks and `jso` with an optional `n`, or
      else three backticks alone. */
  const FencePattern: Regex :=
    Or(Then(Lit("```jso"), Maybe(Lit("n"))), Lit("```"))
}
