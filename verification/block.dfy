/** One grid cell: a material kind, an unsigned health clamped to the kind's maximum,
    and a grey tint picked once when the cell is made. */
module Blocks {
  import opened Common

  datatype BlockType = Stone | Dirt | Grass | Brick | Glass | Bedrock | Water | FireFX

  /** The kinds that damage never affects. */
  predicate Indestructible(t: BlockType) {
    t == Bedrock || t == Water
  }

  /** The per-kind maximum health table. */
  function MaxHealth(t: BlockType): (m: u32)
    ensures 0 < m <= 1000
    ensures m == 1000 <==> Indestructible(t)
  {
    match t
    case Dirt => 75
    case Brick => 45
    case Glass => 38
    case Grass => 35
    case Stone => 150
    case FireFX => 1
    case Bedrock => 1000
    case Water => 1000
  }

  /** The health set_health(h) leaves: h, unless that is above the kind's maximum. */
  function ClampedHealth(t: BlockType, h: u32): (r: u32)
    ensures r <= MaxHealth(t) && r <= h
    ensures r == h || r == MaxHealth(t)
  {
    if MaxHealth(t) < h then MaxHealth(t) else h
  }

  /** The health damage(amount) leaves: a saturating subtraction, except for the
      indestructible kinds, whose health never moves. */
  function DamagedHealth(t: BlockType, health: u32, amount: u32): (r: u32)
    ensures r <= health
    ensures Indestructible(t) ==> r == health
    ensures !Indestructible(t) ==> r == Max(health - amount, 0)
    ensures r == 0 <==> health == 0 || (!Indestructible(t) && amount >= health)
  {
    if Indestructible(t) then health else health - Min(amount, health)
  }

  /** Health never increases under damage, and damage(0) changes nothing. */
  lemma DamageMonotone(t: BlockType, health: u32, a: u32, b: u32)
    requires a <= b
    ensures DamagedHealth(t, health, b) <= DamagedHealth(t, health, a) <= health
    ensures DamagedHealth(t, health, 0) == health
  {
  }

  /** Two hits of a and b leave what one hit of a + b leaves (the sum still a uint32). */
  lemma DamageAdditive(t: BlockType, health: u32, a: u32, b: u32)
    requires a + b < U32
    ensures DamagedHealth(t, DamagedHealth(t, health, a), b) == DamagedHealth(t, health, a + b)
  {
  }

  /** A block. The kind and the tint are fixed at construction; only the health changes. */
  class Block {
    const kind: BlockType
    var health: u32
    /** The common r = g = b component of the colour multiplier; its alpha is 255. */
    const tint: u32

    ghost predicate Valid()
      reads this
    {
      health <= MaxHealth(kind) && 205 <= tint <= 255
    }

    /** Block(type, health): the health is clamped to the kind's maximum. The tint is a
        draw from [205, 255], passed in by the caller. */
    constructor (kind: BlockType, health: u32, tint: u32)
      requires 205 <= tint <= 255
      ensures Valid()
      ensures this.kind == kind && this.tint == tint
      ensures this.health == ClampedHealth(kind, health)
    {
      this.kind := kind;
      this.tint := tint;
      this.health := ClampedHealth(kind, health);
    }

    /** Block(type): a block at the kind's full health, which is never destroyed. */
    constructor OfKind(kind: BlockType, tint: u32)
      requires 205 <= tint <= 255
      ensures Valid() && !IsDestroyed()
      ensures this.kind == kind && this.tint == tint
      ensures this.health == MaxHealth(kind)
    {
      this.kind := kind;
      this.tint := tint;
      this.health := ClampedHealth(kind, MaxHealth(kind));
    }

    /** The kind's maximum health, which a valid block's health never exceeds. */
    function GetMaxHealth(): (m: u32)
      reads this
      ensures 0 < m
      ensures Valid() ==> health <= m
    {
      MaxHealth(kind)
    }

    predicate IsDestroyed()
      reads this
    {
      health == 0
    }

    /** The colour multiplier (r, g, b, a): an opaque grey between 205 and 255. */
    function ColorMul(): (c: (u32, u32, u32, u32))
      requires Valid()
      reads this
      ensures c.0 == c.1 == c.2 && 205 <= c.0 <= 255 && c.3 == 255
    {
      (tint, tint, tint, 255)
    }

    method SetHealth(h: u32)
      requires Valid()
      modifies this
      ensures Valid()
      ensures health == ClampedHealth(kind, h)
    {
      health := if GetMaxHealth() < h then GetMaxHealth() else h;
    }

    method Damage(amount: u32)
      requires Valid()
      modifies this
      ensures Valid()
      ensures health == DamagedHealth(kind, old(health), amount)
    {
      if kind != Bedrock && kind != Water {
        health := health - Min(amount, health);
      }
    }
  }
}
