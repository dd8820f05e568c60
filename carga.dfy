/**
 * The payload list (ListaDeCarga): an append-only doubly-linked list of the
 * decoded characters, read back from head to tail.
 *
 * Nodes are numbered in allocation order; node i holds datos[i], and its
 * `siguiente` and `previo` links are siguiente[i] and previo[i] (None for a
 * null pointer). `head` and `tail` name nodes the same way.
 */
module Carga {
  import opened Wrappers

  class ListaDeCarga {
    var datos: seq<char>
    var siguiente: seq<Option<nat>>
    var previo: seq<Option<nat>>
    var head: Option<nat>
    var tail: Option<nat>

    /**
     * The list invariant: head is null exactly when tail is, exactly when the
     * list is empty; the nodes are chained 0, 1, ..., n-1 by `siguiente` and
     * back by `previo`; head is the first node and tail the last.
     */
    ghost predicate Valid()
      reads this
    {
      |siguiente| == |datos| && |previo| == |datos| &&
      (head.None? <==> tail.None?) &&
      (head.None? <==> datos == []) &&
      (datos != [] ==> head == Some(0) && tail == Some(|datos| - 1)) &&
      (forall i :: 0 <= i < |datos| ==>
         siguiente[i] == if i + 1 < |datos| then Some(i + 1) else None) &&
      (forall i :: 0 <= i < |datos| ==>
         previo[i] == if i == 0 then None else Some(i - 1))
    }

    /** An empty list: head and tail null. */
    constructor ()
      ensures Valid() && datos == []
      ensures head == None && tail == None
    {
      datos, siguiente, previo := [], [], [];
      head, tail := None, None;
    }

    /**
     * Allocates a node for `dato` with null links and makes it the new tail,
     * linking it after the old tail when there is one.
     */
    method InsertarAlFinal(dato: char)
      requires Valid()
      modifies this
      ensures Valid()
      ensures datos == old(datos) + [dato]
      ensures tail == Some(|old(datos)|)
      ensures previo[|old(datos)|] == old(tail)
      ensures old(tail).Some? ==> siguiente[old(tail).value] == tail
    {
      var nuevoNodo := |datos|;
      datos := datos + [dato];
      siguiente := siguiente + [None];
      previo := previo + [None];
      if head == None {
        head := Some(nuevoNodo);
        tail := Some(nuevoNodo);
      } else {
        siguiente := siguiente[tail.value := Some(nuevoNodo)];
        previo := previo[nuevoNodo := tail];
        tail := Some(nuevoNodo);
      }
    }

    /**
     * The characters written out by following `siguiente` from `head` until
     * a null link: exactly the inserted characters, in insertion order. The
     * list is not changed.
     */
    method ImprimirMensaje() returns (salida: seq<char>)
      requires Valid()
      ensures salida == datos
    {
      salida := [];
      var current := head;
      ghost var k := 0;
      while current != None
        invariant 0 <= k <= |datos|
        invariant current == if k < |datos| then Some(k) else None
        invariant salida == datos[..k]
        decreases |datos| - k
      {
        salida := salida + [datos[current.value]];
        current := siguiente[current.value];
        k := k + 1;
      }
    }
  }
}
