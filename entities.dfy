/**
 * The three persisted entities (bear, color, bear_colors) and the small
 * wrapper types the rest of the model shares.
 */
module Entities {

  datatype Option<T> = None | Some(value: T)

  /** Outcome of a store call: it returned a value, or it threw with a message. */
  datatype Result<T> = Ok(value: T) | Threw(message: string)

  /** A row of the `bear_colors` join table: bear `bearId` carries colour `colorId`. */
  datatype BearColor = BearColor(bearId: nat, colorId: nat)

  /**
   * A bear as the ORM hands it out. `bearColors` is the one-to-many relation;
   * it is `None` when the query did not load that relation (the property is
   * then `undefined` on the entity).
   */
  datatype Bear = Bear(id: nat, name: string, size: int, bearColors: Option<seq<BearColor>>)

  /** A row of the `colors` table. */
  datatype Color = Color(id: nat, name: string)

  /** The set of ids carried by a sequence of bears. */
  function IdsOf(bears: seq<Bear>): set<nat>
  {
    set b | b in bears :: b.id
  }

  /** No two bears of the sequence share an id. */
  predicate DistinctIds(bears: seq<Bear>)
  {
    forall i, j :: 0 <= i < j < |bears| ==> bears[i].id != bears[j].id
  }

  /** No two colours of the sequence share an id. */
  predicate DistinctColorIds(colors: seq<Color>)
  {
    forall i, j :: 0 <= i < j < |colors| ==> colors[i].id != colors[j].id
  }

  /** The bear was loaded with a link to colour `colorId`. */
  predicate HasColor(b: Bear, colorId: int)
  {
    b.bearColors.Some? && exists l :: l in b.bearColors.value && l.colorId == colorId
  }
}
