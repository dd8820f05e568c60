/**
 * The mapping rotor (RotorDeMapeo): a circular doubly-linked ring of the 27
 * symbols 'A'..'Z' and ' ', with a movable head (`cabeza`) that marks the
 * current zero position.
 *
 * The ring's nodes are modelled as positions 0..26 in construction order;
 * the `siguiente` and `previo` links become the functions Siguiente and
 * Previo on positions, and `cabeza` becomes a position.
 */
module Rotor {
  import opened Wrappers

  /** Number of nodes on the ring: 26 letters and the space. */
  const RingSize: nat := 27

  /** A node of the ring, named by its place in construction order. */
  type Pos = p: nat | p < RingSize

  /** The ring's symbols in construction order: 'A', 'B', ..., 'Z', then ' '. */
  const Alphabet: seq<char> := "ABCDEFGHIJKLMNOPQRSTUVWXYZ "

  /**
   * The symbol at position k of the alphabet: the k-th letter, and the space
   * last. It is `Alphabet` computed rather than spelt out; the proofs use this
   * form because the solver handles arithmetic on k far better than lookups
   * in a 27-character literal. `AlphabetAt` shows the two agree.
   */
  function Symbol(k: Pos): char
  {
    if k < 26 then (65 + k) as char else ' '
  }

  /** The alphabet spelt out is the sequence of symbols. */
  lemma AlphabetAt(k: Pos)
    ensures Alphabet[k] == Symbol(k)
  {
    assert Alphabet == seq(27, i => if 0 <= i < 26 then (65 + i) as char else ' ');
  }

  predicate IsUpper(c: char) { 'A' <= c <= 'Z' }

  predicate IsLower(c: char) { 'a' <= c <= 'z' }

  /** `toupper` of the C library in the "C" locale: only 'a'..'z' change. */
  function ToUpper(c: char): (r: char)
    ensures IsLower(c) ==> IsUpper(r) && r as int - 'A' as int == c as int - 'a' as int
    ensures !IsLower(c) ==> r == c
  {
    if IsLower(c) then (c as int - 32) as char else c
  }

  /**
   * The absolute index of `c` in the unrotated alphabet (A = 0, ..., Z = 25,
   * space = 26), letters taken case-insensitively; None for any other
   * character.
   */
  function AbsoluteIndex(c: char): (r: Option<Pos>)
    ensures r.None? <==> !(IsUpper(c) || IsLower(c) || c == ' ')
    ensures r.Some? ==> Symbol(r.value) == ToUpper(c)
  {
    if IsUpper(ToUpper(c)) then Some(ToUpper(c) as int - 'A' as int)
    else if c == ' ' then Some(26)
    else None
  }

  /** The `siguiente` link of a ring node; the last node links back to the first. */
  function Siguiente(p: Pos): (q: Pos)
    ensures q == (p + 1) % RingSize
  {
    if p == RingSize - 1 then 0 else p + 1
  }

  /** The `previo` link of a ring node; the first node links back to the last. */
  function Previo(p: Pos): (q: Pos)
    ensures Siguiente(q) == p
    ensures q == (p - 1) % RingSize
  {
    if p == 0 then RingSize - 1 else p - 1
  }

  /**
   * The node reached from `p` by n unit steps: along `siguiente` when n > 0,
   * along `previo` when n < 0.
   */
  function Walk(p: Pos, n: int): (r: Pos)
    ensures n == 1 ==> r == Siguiente(p)
    ensures n == -1 ==> r == Previo(p)
    decreases if n < 0 then -n else n
  {
    if n > 0 then Walk(Siguiente(p), n - 1)
    else if n < 0 then Walk(Previo(p), n + 1)
    else p
  }

  /** Walking the ring one link at a time is adding modulo the ring size. */
  lemma {:induction false} WalkIsModular(p: Pos, n: int)
    ensures Walk(p, n) == (p + n) % RingSize
    decreases if n < 0 then -n else n
  {
    if n > 0 {
      WalkIsModular(Siguiente(p), n - 1);
      ModShift(p, 1, n - 1);
    } else if n < 0 {
      WalkIsModular(Previo(p), n + 1);
      ModShift(p, -1, n + 1);
    }
  }

  /** Reducing an intermediate sum modulo the ring size does not change the final one. */
  lemma ModShift(p: int, a: int, b: int)
    ensures ((p + a) % RingSize + b) % RingSize == (p + a + b) % RingSize
  {
    var q := (p + a) / RingSize;
    assert p + a == q * RingSize + (p + a) % RingSize;
    assert (p + a + b) == ((p + a) % RingSize + b) + q * RingSize;
    ModMultiple((p + a) % RingSize + b, q);
  }

  lemma ModMultiple(x: int, q: int)
    ensures (x + q * RingSize) % RingSize == x % RingSize
  {
    var r := x % RingSize;
    var d := x / RingSize;
    assert x + q * RingSize == (d + q) * RingSize + r;
  }

  /** Two walks in a row are one walk by the sum of their lengths. */
  lemma WalkAdditive(p: Pos, a: int, b: int)
    ensures Walk(Walk(p, a), b) == Walk(p, a + b)
  {
    WalkIsModular(p, a);
    WalkIsModular(Walk(p, a), b);
    WalkIsModular(p, a + b);
    ModShift(p, a, b);
  }

  /** Walking n steps and then n steps back returns to the starting node. */
  lemma WalkInverse(p: Pos, n: int)
    ensures Walk(Walk(p, n), -n) == p
  {
    WalkAdditive(p, n, -n);
  }

  /**
   * The character `getMapeo` returns when the head is at `cabeza`: the
   * symbol AbsoluteIndex(c) steps ahead of the head, or `c` itself when it
   * is not a rotor symbol. A rotor symbol, lower-case letters included,
   * always maps to an upper-case letter or the space.
   */
  function Mapeo(cabeza: Pos, c: char): (r: char)
    ensures AbsoluteIndex(c).None? ==> r == c
    ensures AbsoluteIndex(c).Some? ==> IsUpper(r) || r == ' '
  {
    if AbsoluteIndex(c).None? then c
    else Symbol((cabeza + AbsoluteIndex(c).value) % RingSize)
  }

  /** Distinct alphabet positions hold distinct symbols. */
  lemma SymbolDistinct(i: Pos, j: Pos)
    requires Symbol(i) == Symbol(j)
    ensures i == j
  {
  }

  /** The index of an alphabet symbol is its place in the alphabet. */
  lemma AbsoluteIndexOfSymbol(i: Pos)
    ensures AbsoluteIndex(Symbol(i)) == Some(i)
  {
  }

  /** With the head on 'A' the mapping is the identity on the alphabet. */
  lemma MapeoAtHome(i: Pos)
    ensures Mapeo(0, Symbol(i)) == Symbol(i)
  {
    AbsoluteIndexOfSymbol(i);
  }

  /** A symbol maps to the symbol its index ahead of the head. */
  lemma MapeoOfSymbol(cabeza: Pos, i: Pos)
    ensures Mapeo(cabeza, Symbol(i)) == Symbol((cabeza + i) % RingSize)
  {
    AbsoluteIndexOfSymbol(i);
  }

  /** A letter maps as its upper-case form does. */
  lemma MapeoCaseInsensitive(cabeza: Pos, c: char)
    ensures Mapeo(cabeza, c) == Mapeo(cabeza, ToUpper(c))
  {
  }

  /**
   * The symbol a sender enciphers so that the rotor at `cabeza` yields `d`:
   * the one AbsoluteIndex(d) steps behind the head.
   */
  function Unmapeo(cabeza: Pos, d: char): (r: char)
    requires AbsoluteIndex(d).Some?
    ensures IsUpper(r) || r == ' '
  {
    Symbol((AbsoluteIndex(d).value - cabeza) % RingSize)
  }

  /** Unmapeo undoes Mapeo on the alphabet. */
  lemma UnmapeoMapeo(cabeza: Pos, i: Pos)
    ensures AbsoluteIndex(Mapeo(cabeza, Symbol(i))).Some?
    ensures Unmapeo(cabeza, Mapeo(cabeza, Symbol(i))) == Symbol(i)
  {
    var k: Pos := (cabeza + i) % RingSize;
    MapeoOfSymbol(cabeza, i);
    AbsoluteIndexOfSymbol(k);
    ModShift(cabeza, i, -(cabeza as int));
    assert (k - cabeza) % RingSize == i;
  }

  /** Mapeo undoes Unmapeo on the alphabet. */
  lemma MapeoUnmapeo(cabeza: Pos, j: Pos)
    ensures Mapeo(cabeza, Unmapeo(cabeza, Symbol(j))) == Symbol(j)
  {
    var m: Pos := (j - cabeza) % RingSize;
    AbsoluteIndexOfSymbol(j);
    assert Unmapeo(cabeza, Symbol(j)) == Symbol(m);
    MapeoOfSymbol(cabeza, m);
    ModShift(j, -(cabeza as int), cabeza);
  }

  /**
   * For a fixed head, the mapping is a bijection of the alphabet: no two
   * symbols map alike, and every symbol is the image of one.
   */
  lemma MapeoBijective(cabeza: Pos, i: Pos, j: Pos, k: Pos)
    ensures Mapeo(cabeza, Symbol(i)) == Mapeo(cabeza, Symbol(j)) ==> i == j
    ensures exists m: Pos :: Mapeo(cabeza, Symbol(m)) == Symbol(k)
  {
    UnmapeoMapeo(cabeza, i);
    UnmapeoMapeo(cabeza, j);
    if Symbol(i) == Symbol(j) {
      SymbolDistinct(i, j);
    }
    MapeoUnmapeo(cabeza, k);
    var m: Pos := (k - cabeza) % RingSize;
    AbsoluteIndexOfSymbol(k);
    assert Unmapeo(cabeza, Symbol(k)) == Symbol(m);
  }

  /** A ring whose node k holds Symbol(k) for all 27 nodes spells out the alphabet. */
  lemma RingSpellsAlphabet(ring: seq<char>)
    requires |ring| == RingSize
    requires forall k :: 0 <= k < |ring| ==> ring[k] == Symbol(k)
    ensures ring == Alphabet
  {
    forall k | 0 <= k < RingSize
      ensures ring[k] == Alphabet[k]
    {
      AlphabetAt(k);
    }
  }

  /** The ring of the decoder: its nodes' symbols and the head. */
  class RotorDeMapeo {
    /** The nodes' symbols in `siguiente` order from the first node built; empty while `cabeza` is null. */
    var ring: seq<char>
    /** The node `cabeza` points to: the current zero position. */
    var cabeza: Pos

    /** Once built, the ring holds exactly the alphabet in canonical order. */
    ghost predicate Valid()
      reads this
    {
      |ring| == RingSize && forall k :: 0 <= k < |ring| ==> ring[k] == Symbol(k)
    }

    /** Builds the ring with the head on 'A'. */
    constructor ()
      ensures Valid() && cabeza == 0
    {
      ring := [];
      cabeza := 0;
      new;
      InicializarAlfabeto();
    }

    /**
     * Links the nodes 'A'..'Z' and then ' ' into the ring, the first node
     * becoming the head; does nothing when the ring already exists.
     */
    method InicializarAlfabeto()
      requires ring == [] || Valid()
      modifies this
      ensures Valid()
      ensures old(ring) != [] ==> unchanged(this)
      ensures old(ring) == [] ==> cabeza == 0
    {
      if ring != [] {
        return;
      }
      var c := 'A';
      while c <= 'Z'
        invariant 'A' <= c <= '['
        invariant |ring| == c as int - 'A' as int
        invariant forall k :: 0 <= k < |ring| ==> ring[k] == Symbol(k)
        invariant c != 'A' ==> cabeza == 0
      {
        if ring == [] {
          cabeza := 0;
        }
        ring := ring + [c];
        c := (c as int + 1) as char;
      }
      ring := ring + [' '];
    }

    /**
     * Moves the head n nodes along `siguiente` when n > 0 and -n nodes
     * along `previo` when n < 0; the ring itself does not change.
     */
    method Rotar(n: int)
      requires Valid()
      modifies this
      ensures Valid()
      ensures cabeza == Walk(old(cabeza), n)
      ensures cabeza == (old(cabeza) + n) % RingSize
    {
      if n > 0 {
        for i := 0 to n
          invariant Valid()
          invariant cabeza == (old(cabeza) + i) % RingSize
        {
          ModShift(old(cabeza), i, 1);
          cabeza := Siguiente(cabeza);
        }
      } else {
        var i := 0;
        while i > n
          invariant n <= i <= 0
          invariant Valid()
          invariant cabeza == (old(cabeza) + i) % RingSize
        {
          ModShift(old(cabeza), i, -1);
          cabeza := Previo(cabeza);
          i := i - 1;
        }
      }
      WalkIsModular(old(cabeza), n);
    }

    /**
     * The symbol AbsoluteIndex(c) nodes ahead of the head, or `c` unchanged
     * when it is not a rotor symbol. Reads the rotor only.
     */
    method GetMapeo(c: char) returns (r: char)
      requires Valid()
      ensures r == Mapeo(cabeza, c)
    {
      var absoluteIndex := -1;
      var upperIn := ToUpper(c);
      if IsUpper(upperIn) {
        absoluteIndex := upperIn as int - 'A' as int;
      } else if c == ' ' {
        absoluteIndex := 26;
      } else {
        return c;
      }
      assert AbsoluteIndex(c) == Some(absoluteIndex);
      var temp := cabeza;
      for i := 0 to absoluteIndex
        invariant temp == (cabeza + i) % RingSize
      {
        ModShift(cabeza, i, 1);
        temp := Siguiente(temp);
      }
      r := ring[temp];
    }
  }
}
