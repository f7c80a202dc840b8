/** The size fallback of main.js: `pickApiSize` (main.js:195-197) and the
    list of sizes `callOpenAI` tries in order (main.js:223-224). */
module Sizes {

  /** Let the API choose the output size, preserving the aspect ratio. */
  const Auto: string := "auto"

  /** The square size tried when `auto` fails. */
  const Square: string := "1024x1024"

  /** pickApiSize: the preferred size is always the adaptive one. */
  function PickApiSize(): (s: string)
    ensures s == Auto
  {
    Auto
  }

  /** The sizes tried, in order: `auto` falls back to the square size; any
      other preference is tried alone. */
  function Candidates(primary: string): (sizes: seq<string>)
    ensures 1 <= |sizes| <= 2 && sizes[0] == primary
    ensures |sizes| == 2 <==> primary == Auto
    ensures |sizes| == 2 ==> sizes[1] == Square
  {
    if primary == Auto then [Auto, Square] else [primary]
  }

  /** The sizes actually tried are `auto` then `1024x1024`, each once. */
  lemma CandidatesOfPicked()
    ensures Candidates(PickApiSize()) == [Auto, Square]
    ensures Auto != Square
  {
  }
}
