/**
 How the two selectors decide that an endpoint matches, and the first-match
 scan over the collection that both of them perform.
 */
module Matching {
  import opened Com
  import opened Endpoints

  /** ASCII case folding of one character; every other character is unchanged. */
  function LowerChar(c: char): char {
    if 'A' <= c <= 'Z' then (c as int + 32) as char else c
  }

  /** `str::to_lowercase`, restricted to ASCII letters. */
  function Lower(s: string): (r: string)
    ensures |r| == |s|
    ensures forall i :: 0 <= i < |s| ==> r[i] == LowerChar(s[i])
  {
    if |s| == 0 then [] else [LowerChar(s[0])] + Lower(s[1..])
  }

  lemma LowerIdempotent(s: string)
    ensures Lower(Lower(s)) == Lower(s)
  {
  }

  /** `needle` occurs in `hay` starting at index `i`. */
  predicate OccursAt(hay: string, needle: string, i: int) {
    0 <= i && i + |needle| <= |hay| && hay[i..i + |needle|] == needle
  }

  /**
   `str::contains`: scans start positions left to right; the empty needle is
   found everywhere. True exactly when the needle occurs at some position.
   */
  function Contains(hay: string, needle: string): (b: bool)
    ensures b <==> exists i :: OccursAt(hay, needle, i)
    decreases |hay|
  {
    if |needle| <= |hay| && hay[..|needle|] == needle then
      assert OccursAt(hay, needle, 0);
      true
    else if |hay| == 0 then false
    else
      OccursInTail(hay, needle);
      Contains(hay[1..], needle)
  }

  /** Past a mismatch at position 0, the needle occurs in `hay` exactly when it occurs in its tail. */
  lemma OccursInTail(hay: string, needle: string)
    requires |hay| > 0 && !OccursAt(hay, needle, 0)
    ensures (exists i :: OccursAt(hay, needle, i)) <==> exists i :: OccursAt(hay[1..], needle, i)
  {
    var tail := hay[1..];
    forall i | OccursAt(hay, needle, i)
      ensures i >= 1 && OccursAt(tail, needle, i - 1)
    {
      assert tail[i - 1..i - 1 + |needle|] == hay[i..i + |needle|];
    }
    forall i | OccursAt(tail, needle, i)
      ensures OccursAt(hay, needle, i + 1)
    {
      assert tail[i..i + |needle|] == hay[i + 1..i + 1 + |needle|];
    }
  }

  /** What a selector looks for in an endpoint's id string. */
  datatype Criterion =
    | IdContains(needle: string)   // set_default_output_by_name: case-insensitive substring
    | IdEquals(id: string)         // set_default_output_by_id_str: exact, case-sensitive

  predicate Accepts(c: Criterion, idText: string) {
    match c
    case IdContains(needle) => Contains(Lower(idText), Lower(needle))
    case IdEquals(id) => idText == id
  }

  /** The endpoint has a readable id string and the criterion accepts it; the friendly name plays no part. */
  predicate Selectable(c: Criterion, e: Endpoint) {
    ReadableId(e).Some? && Accepts(c, ReadableId(e).value)
  }

  /** The selector loop `for i in 0..count { ... break }`: the index of the first selectable endpoint. */
  function FindFirst(c: Criterion, items: seq<Endpoint>): (r: Option<nat>)
    ensures r.Some? ==> r.value < |items| && Selectable(c, items[r.value])
    ensures r.Some? ==> forall j :: 0 <= j < r.value ==> !Selectable(c, items[j])
    ensures r.None? <==> forall j :: 0 <= j < |items| ==> !Selectable(c, items[j])
  {
    if |items| == 0 then None
    else if Selectable(c, items[0]) then Some(0)
    else
      var rest := FindFirst(c, items[1..]);
      assert forall j :: 1 <= j < |items| ==> items[j] == items[1..][j - 1];
      match rest
      case None => None
      case Some(k) => Some(k + 1)
  }

  /** Substring matching ignores ASCII case on both sides. */
  lemma SubstringIgnoresCase(needle: string, idText: string)
    ensures Accepts(IdContains(needle), idText) == Accepts(IdContains(Lower(needle)), idText)
    ensures Accepts(IdContains(needle), idText) == Accepts(IdContains(needle), Lower(idText))
  {
    LowerIdempotent(needle);
    LowerIdempotent(idText);
  }

  /** Two collections that agree on every Item/GetId/to_string answer, whatever their friendly names. */
  predicate SameIds(a: seq<Endpoint>, b: seq<Endpoint>) {
    |a| == |b| && forall i :: 0 <= i < |a| ==> ReadableId(a[i]) == ReadableId(b[i])
  }

  /** Only the id is matched, never the friendly name: the scan's answer depends on the ids alone. */
  lemma {:induction false} FindFirstIgnoresNames(c: Criterion, a: seq<Endpoint>, b: seq<Endpoint>)
    requires SameIds(a, b)
    ensures FindFirst(c, a) == FindFirst(c, b)
  {
    assert forall j :: 0 <= j < |a| ==> (Selectable(c, a[j]) <==> Selectable(c, b[j]));
  }
}
