/**
 * The decoding loop of main.cpp: each line the serial link hands over is
 * filtered, parsed, and its frame processed against the rotor and the
 * payload list, in arrival order.
 */
module Decodificador {
  import opened Wrappers
  import opened Rotor
  import opened Carga
  import opened Tramas
  import opened Protocolo

  /** main's pre-filter: only lines whose first character is 'L' or 'M' reach the parser. */
  predicate IsFrameLine(line: string): (b: bool)
    ensures b <==> line != [] && (line[0] == 'L' || line[0] == 'M')
  {
    CharAt(line, 0) == 'L' || CharAt(line, 0) == 'M'
  }

  /** Every line handed over is a C string. */
  predicate AllCStrings(lines: seq<Option<string>>)
  {
    forall k :: 0 <= k < |lines| && lines[k].Some? ==> IsCString(lines[k].value)
  }

  /**
   * One pass of main's loop on what readLine returned (None when no line
   * was available): skip non-frame lines, parse, and process the frame
   * when there is one.
   */
  function Step(s: Session, line: Option<string>): Session
  {
    if line.None? || !IsFrameLine(line.value) then s
    else match Parse(line).trama
      case None => s
      case Some(t) => Apply(s, t)
  }

  /** The state after handling the lines in arrival order. */
  function Run(s: Session, lines: seq<Option<string>>): Session
    decreases |lines|
  {
    if lines == [] then s else Run(Step(s, lines[0]), lines[1..])
  }

  /** The pre-filter discards nothing the parser would accept. */
  lemma PrefilterKeepsFrames(line: string)
    requires !IsFrameLine(line)
    ensures Parse(Some(line)) == Rejected
  {
  }

  /** A line is handled by parsing it and applying its frame, if any; nothing else happens. */
  lemma StepIsParseThenApply(s: Session, line: Option<string>)
    ensures Step(s, line) == match Parse(line).trama
      case None => s
      case Some(t) => Apply(s, t)
  {
    if line.Some? && !IsFrameLine(line.value) {
      PrefilterKeepsFrames(line.value);
    }
  }

  /** Handling a batch and then another is handling them one after the other. */
  lemma {:induction false} RunAppend(s: Session, a: seq<Option<string>>, b: seq<Option<string>>)
    ensures Run(s, a + b) == Run(Run(s, a), b)
    decreases |a|
  {
    if a == [] {
      assert a + b == b;
    } else {
      assert (a + b)[1..] == a[1..] + b;
      RunAppend(Step(s, a[0]), a[1..], b);
    }
  }

  /** The decoded message only grows: every earlier character stays in place. */
  lemma {:induction false} RunOnlyAppends(s: Session, lines: seq<Option<string>>)
    ensures |s.mensaje| <= |Run(s, lines).mensaje|
    ensures Run(s, lines).mensaje[..|s.mensaje|] == s.mensaje
    decreases |lines|
  {
    if lines != [] {
      var s' := Step(s, lines[0]);
      assert |s.mensaje| <= |s'.mensaje| && s'.mensaje[..|s.mensaje|] == s.mensaje;
      RunOnlyAppends(s', lines[1..]);
    }
  }

  /** The number of lines that carry a Load frame. */
  function LoadCount(lines: seq<Option<string>>): nat
    decreases |lines|
  {
    if lines == [] then 0
    else
      var t := Parse(lines[0]).trama;
      (if t.Some? && t.value.Load? then 1 else 0) + LoadCount(lines[1..])
  }

  /** Each Load line adds exactly one character and nothing else adds any. */
  lemma {:induction false} RunLength(s: Session, lines: seq<Option<string>>)
    ensures |Run(s, lines).mensaje| == |s.mensaje| + LoadCount(lines)
    decreases |lines|
  {
    if lines != [] {
      StepIsParseThenApply(s, lines[0]);
      RunLength(Step(s, lines[0]), lines[1..]);
    }
  }

  /**
   * A line whose tag is neither 'L' nor 'M' (the empty line included)
   * yields no frame and leaves the rotor and the message as they were.
   */
  lemma UnknownTagIsIgnored(s: Session, line: string)
    requires CharAt(line, 0) != 'L' && CharAt(line, 0) != 'M'
    ensures Parse(Some(line)) == Rejected
    ensures Step(s, Some(line)) == s
  {
  }

  /** "Q,1" is one such line. */
  lemma UnknownTagExample(s: Session)
    ensures Step(s, Some("Q,1")) == s
  {
    UnknownTagIsIgnored(s, "Q,1");
  }

  /** A well-formed load line appends the mapped payload character. */
  lemma StepLoad(s: Session, c: char)
    requires c != '\0'
    ensures Step(s, Some(['L', ',', c])) == Apply(s, Load(c))
  {
    ParseLoad(c, "");
    assert ['L', ',', c] + "" == ['L', ',', c];
  }

  /** "M,1" advances the rotor by one position. */
  lemma StepMapOne(s: Session)
    ensures Step(s, Some("M,1")) == Apply(s, Map(1))
  {
    ParseMap("", "1", "");
    assert "M," + "" + "1" + "" == "M,1";
  }

  /** The mappings the end-to-end example goes through. */
  lemma MapeoSamples()
    ensures Mapeo(0, 'A') == 'A' && Mapeo(1, 'A') == 'B' && Mapeo(1, 'Z') == ' '
  {
    MapeoOfSymbol(0, 0);
    MapeoOfSymbol(1, 0);
    MapeoOfSymbol(1, 25);
  }

  /** From start-up, "L,A", "M,1", "L,A", "L,Z" decode to "AB ". */
  lemma EndToEnd()
    ensures Run(Initial, [Some("L,A"), Some("M,1"), Some("L,A"), Some("L,Z")]).mensaje == "AB "
  {
    var lines := [Some("L,A"), Some("M,1"), Some("L,A"), Some("L,Z")];
    MapeoSamples();
    StepLoad(Initial, 'A');
    var s1 := Session(0, "A");
    StepMapOne(s1);
    var s2 := Session(1, "A");
    StepLoad(s2, 'A');
    var s3 := Session(1, "AB");
    StepLoad(s3, 'Z');
    RunAppend(Initial, [lines[0]], lines[1..]);
    RunAppend(s1, [lines[1]], lines[2..]);
    RunAppend(s2, [lines[2]], lines[3..]);
    assert lines[1..] == [lines[1]] + lines[2..];
    assert lines[2..] == [lines[2]] + lines[3..];
    assert Run(s3, lines[3..]) == Session(1, "AB ");
  }

  /** Frames do not commute: the same two lines in the other order decode differently. */
  lemma OrderMatters()
    ensures Run(Initial, [Some("L,A"), Some("M,1")]) != Run(Initial, [Some("M,1"), Some("L,A")])
  {
    MapeoSamples();
    StepLoad(Initial, 'A');
    StepLoad(Session(1, []), 'A');
    StepMapOne(Initial);
    StepMapOne(Session(0, "A"));
    assert Run(Initial, [Some("L,A"), Some("M,1")]).mensaje == "A";
    assert Run(Initial, [Some("M,1"), Some("L,A")]).mensaje == "B";
  }

  /**
   * One pass of main's loop: skip a missing or non-frame line, otherwise
   * parse it and, if it yields a frame, process it against the list and the
   * rotor; a line that fails to parse changes nothing.
   */
  method ProcesarLinea(receivedLine: Option<string>, carga: ListaDeCarga, rotor: RotorDeMapeo)
    requires receivedLine.Some? ==> IsCString(receivedLine.value)
    requires carga.Valid() && rotor.Valid()
    modifies carga, rotor
    ensures carga.Valid() && rotor.Valid()
    ensures Session(rotor.cabeza, carga.datos) == Step(old(Session(rotor.cabeza, carga.datos)), receivedLine)
  {
    if receivedLine.None? {
      return;
    }
    if CharAt(receivedLine.value, 0) != 'L' && CharAt(receivedLine.value, 0) != 'M' {
      return;
    }
    var trama, originalCharBuffer, rotationAmount := ParseLine(receivedLine);
    if trama.Some? {
      Procesar(trama.value, carga, rotor);
    }
  }

  /**
   * A whole session: a fresh list and rotor, every line handled in arrival
   * order, then the assembled message as imprimirMensaje writes it.
   */
  method Decodificar(lines: seq<Option<string>>) returns (mensaje: string)
    requires AllCStrings(lines)
    ensures mensaje == Run(Initial, lines).mensaje
  {
    var miListaDeCarga := new ListaDeCarga();
    var miRotorDeMapeo := new RotorDeMapeo();
    for k := 0 to |lines|
      invariant miListaDeCarga.Valid() && miRotorDeMapeo.Valid()
      invariant Session(miRotorDeMapeo.cabeza, miListaDeCarga.datos) == Run(Initial, lines[..k])
    {
      RunAppend(Initial, lines[..k], [lines[k]]);
      assert lines[..k + 1] == lines[..k] + [lines[k]];
      ProcesarLinea(lines[k], miListaDeCarga, miRotorDeMapeo);
    }
    assert lines[..|lines|] == lines;
    mensaje := miListaDeCarga.ImprimirMensaje();
  }
}
