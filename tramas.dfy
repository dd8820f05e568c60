/**
 * The two protocol frames (TramaLoad, TramaMap) and what processing one
 * does to the decoder's state: the rotor's head and the payload list.
 */
module Tramas {
  import opened Rotor
  import opened Carga

  /** A frame: a character to decode and append, or a rotation of the rotor. */
  datatype Trama = Load(data: char) | Map(rotationAmount: int)

  /** The decoder's state as values: the rotor's head and the payload so far. */
  datatype Session = Session(cabeza: Pos, mensaje: seq<char>)

  /** The state right after start-up: head on 'A', nothing decoded. */
  const Initial := Session(0, [])

  /** The effect of processing one frame. */
  function Apply(s: Session, t: Trama): Session
  {
    match t
    case Load(c) => Session(s.cabeza, s.mensaje + [Mapeo(s.cabeza, c)])
    case Map(n) => Session((s.cabeza + n) % RingSize, s.mensaje)
  }

  /** A Load frame appends exactly one character and keeps every earlier one. */
  lemma LoadAppendsOne(s: Session, c: char)
    ensures |Apply(s, Load(c)).mensaje| == |s.mensaje| + 1
    ensures Apply(s, Load(c)).mensaje[..|s.mensaje|] == s.mensaje
    ensures Apply(s, Load(c)).cabeza == s.cabeza
  {
  }

  /** A rotation by zero changes nothing. */
  lemma MapZeroIsIdentity(s: Session)
    ensures Apply(s, Map(0)) == s
  {
  }

  /** Two rotations in a row are one rotation by their sum. */
  lemma MapsCompose(s: Session, a: int, b: int)
    ensures Apply(Apply(s, Map(a)), Map(b)) == Apply(s, Map(a + b))
  {
    ModShift(s.cabeza, a, b);
  }

  /** A rotation by n followed by one by -n restores the state. */
  lemma MapUndoes(s: Session, n: int)
    ensures Apply(Apply(s, Map(n)), Map(-n)) == s
  {
    MapsCompose(s, n, -n);
  }

  /**
   * TramaLoad::procesar: decode `data` through the rotor and append the
   * result to the list; with either pointer null, nothing happens.
   */
  method ProcesarLoad(data: char, carga: ListaDeCarga?, rotor: RotorDeMapeo?)
    requires carga != null ==> carga.Valid()
    requires rotor != null ==> rotor.Valid()
    modifies carga, rotor
    ensures carga != null ==> carga.Valid()
    ensures rotor != null ==> rotor.Valid() && unchanged(rotor)
    ensures carga != null && rotor != null ==>
      Session(rotor.cabeza, carga.datos) == Apply(Session(rotor.cabeza, old(carga.datos)), Load(data))
    ensures carga != null && rotor == null ==> unchanged(carga)
  {
    if carga == null || rotor == null {
      return;
    }
    var decodedChar := rotor.GetMapeo(data);
    carga.InsertarAlFinal(decodedChar);
  }

  /**
   * TramaMap::procesar: rotate the rotor by `rotationAmount`; the list is
   * never touched, and with a null rotor nothing happens.
   */
  method ProcesarMap(rotationAmount: int, carga: ListaDeCarga?, rotor: RotorDeMapeo?)
    requires rotor != null ==> rotor.Valid()
    modifies rotor
    ensures rotor != null ==> rotor.Valid()
    ensures carga != null && rotor != null ==>
      Session(rotor.cabeza, carga.datos) == Apply(Session(old(rotor.cabeza), carga.datos), Map(rotationAmount))
    ensures rotor != null ==> rotor.cabeza == Walk(old(rotor.cabeza), rotationAmount)
  {
    if rotor == null {
      return;
    }
    rotor.Rotar(rotationAmount);
  }

  /** TramaBase::procesar, dispatched on the kind of frame. */
  method Procesar(t: Trama, carga: ListaDeCarga, rotor: RotorDeMapeo)
    requires carga.Valid() && rotor.Valid()
    modifies carga, rotor
    ensures carga.Valid() && rotor.Valid()
    ensures Session(rotor.cabeza, carga.datos) == Apply(old(Session(rotor.cabeza, carga.datos)), t)
  {
    match t
    case Load(c) => ProcesarLoad(c, carga, rotor);
    case Map(n) => ProcesarMap(n, carga, rotor);
  }
}
