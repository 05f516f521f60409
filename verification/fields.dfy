/** Field-level rules shared by the three schemas and the three controllers:
    record ids, how request strings are read (JavaScript truthiness), the
    `required` validator and the `supplied || stored` partial update. */
module Fields {
  import opened Results

  /** A record id. Storage hands out fresh ids, never reused, and ids of the
      three collections never collide. */
  type Id = nat

  /** JavaScript truthiness of a request string: present and non-empty. */
  predicate Supplied(v: Option<string>) {
    v.Some? && v.value != ""
  }

  /** The string a request field puts into a new record; an absent field is
      stored as nothing, which the `required` validator treats like "". */
  function Text(v: Option<string>): string {
    if v.Some? then v.value else ""
  }

  /** The `required` validator on a String path: undefined and "" both fail. */
  predicate Required(s: string) {
    s != ""
  }

  /** `supplied || stored`: an update field overwrites the stored value only
      when it is present and non-empty. */
  function Pick(supplied: Option<string>, stored: string): (r: string)
    ensures Supplied(supplied) ==> r == supplied.value
    ensures !Supplied(supplied) ==> r == stored
    ensures Required(stored) ==> Required(r)
  {
    if Supplied(supplied) then supplied.value else stored
  }

  /** A partial update with an absent or empty field is a no-op, and applying
      the same update twice is the same as applying it once. */
  lemma PickKeepsAndIsIdempotent(supplied: Option<string>, stored: string)
    ensures !Supplied(supplied) ==> Pick(supplied, stored) == stored
    ensures Pick(supplied, Pick(supplied, stored)) == Pick(supplied, stored)
  {
  }

  /** `Math.max(0, n - 1)`: the floored decrement applied to every counter. */
  function DecrementFloor(n: int): (r: int)
    ensures r >= 0
    ensures n >= 1 ==> r + 1 == n
    ensures n <= 1 ==> r == 0
  {
    if n - 1 > 0 then n - 1 else 0
  }
}
