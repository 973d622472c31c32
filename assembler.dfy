/** The non-abstract skeleton of the mageri consensus assembler
    (`com.antigenomics.mageri.core.assemble.Assembler`): result wrapping, the retained
    consensus list, `clear` and the plain-text report. The consensus computation
    itself (`assemble`) is abstract in the source and a parameter here. */
module Assemble {
  import opened Wrappers
  import Decimal

  /** The three consensus fields the report prints. */
  datatype Consensus = Consensus(umi: string, assembledSize: int, trueSize: int)

  /** `ProcessorResultWrapper`: `Blank` is the shared `BLANK` instance. */
  datatype ProcessorResultWrapper<C> = Blank | Wrapped(result: C)

  /** `process(mig)`: a `null` from `assemble` becomes `BLANK`, a consensus is wrapped. */
  function Process<M, C>(assemble: M -> Option<C>, mig: M): (r: ProcessorResultWrapper<C>)
    ensures r.Blank? <==> assemble(mig).None?
    ensures r.Wrapped? ==> assemble(mig) == Some(r.result)
  {
    match assemble(mig)
    case None => Blank
    case Some(consensus) => Wrapped(consensus)
  }

  /** Unwrapping the wrapper gives back exactly what `assemble` returned. */
  lemma ProcessRoundTrip<M, C>(assemble: M -> Option<C>, mig: M)
    ensures (match Process(assemble, mig)
             case Blank => None
             case Wrapped(c) => Some(c)) == assemble(mig)
  {
  }

  /** The three column names of the table. */
  const UMI_COLUMN: string := "umi"
  const ASSEMBLED_COLUMN: string := "reads.assembled"
  const TOTAL_COLUMN: string := "reads.total"

  /** The header line, `umi<TAB>reads.assembled<TAB>reads.total`. */
  const HEADER: string := UMI_COLUMN + "\t" + ASSEMBLED_COLUMN + "\t" + TOTAL_COLUMN

  /** One report line: `umi \t assembledSize \t trueSize \n`. */
  function Line(c: Consensus): string
  {
    c.umi + "\t" + Decimal.IntToDecimal(c.assembledSize) + "\t" + Decimal.IntToDecimal(c.trueSize) + "\n"
  }

  /** The strings `render` gives the items, concatenated in order. */
  function ConcatMap<T>(items: seq<T>, render: T -> string): string
  {
    if items == [] then ""
    else ConcatMap(items[..|items| - 1], render) + render(items[|items| - 1])
  }

  /** The report body: the lines of the consensuses, in list order. */
  function Body(consensuses: seq<Consensus>): string
  {
    ConcatMap(consensuses, Line)
  }

  function CountChar(s: string, c: char): nat
  {
    if s == [] then 0 else CountChar(s[..|s| - 1], c) + (if s[|s| - 1] == c then 1 else 0)
  }

  lemma {:induction false} CountCharConcat(a: string, b: string, c: char)
    ensures CountChar(a + b, c) == CountChar(a, c) + CountChar(b, c)
    decreases |b|
  {
    if b == [] {
      assert a + b == a;
    } else {
      var b' := b[..|b| - 1];
      assert (a + b)[..|a + b| - 1] == a + b';
      CountCharConcat(a, b', c);
    }
  }

  lemma {:induction false} CountCharAbsent(s: string, c: char)
    requires forall i :: 0 <= i < |s| ==> s[i] != c
    ensures CountChar(s, c) == 0
    decreases |s|
  {
    if s != [] {
      CountCharAbsent(s[..|s| - 1], c);
    }
  }

  /** A decimal number holds neither a tab nor a newline. */
  lemma DecimalHasNoSeparator(n: int, c: char)
    requires c == '\t' || c == '\n'
    ensures CountChar(Decimal.IntToDecimal(n), c) == 0
  {
    var s := Decimal.IntToDecimal(n);
    forall i | 0 <= i < |s| ensures s[i] != c {
      assert Decimal.IsNumeral(s[i]);
    }
    CountCharAbsent(s, c);
  }

  /** Three columns without separators, joined by tabs, hold two tabs and no newline. */
  lemma ColumnsShape(x: string, y: string, z: string)
    requires CountChar(x, '\t') == 0 && CountChar(x, '\n') == 0
    requires CountChar(y, '\t') == 0 && CountChar(y, '\n') == 0
    requires CountChar(z, '\t') == 0 && CountChar(z, '\n') == 0
    ensures CountChar(x + "\t" + y + "\t" + z, '\t') == 2 && CountChar(x + "\t" + y + "\t" + z, '\n') == 0
  {
    var tab := "\t";
    forall ch: char | ch == '\t' || ch == '\n'
      ensures CountChar(x + tab + y + tab + z, ch) == CountChar(x, ch) + CountChar(tab, ch) + CountChar(y, ch)
                                                     + CountChar(tab, ch) + CountChar(z, ch)
    {
      CountCharConcat(x, tab, ch);
      CountCharConcat(x + tab, y, ch);
      CountCharConcat(x + tab + y, tab, ch);
      CountCharConcat(x + tab + y + tab, z, ch);
    }
    assert CountChar(tab, '\t') == 1 && CountChar(tab, '\n') == 0;
  }

  /** A line has exactly two tabs and one newline when the UMI has neither. */
  lemma LineShape(c: Consensus)
    requires CountChar(c.umi, '\t') == 0 && CountChar(c.umi, '\n') == 0
    ensures CountChar(Line(c), '\t') == 2 && CountChar(Line(c), '\n') == 1
  {
    var a := Decimal.IntToDecimal(c.assembledSize);
    var t := Decimal.IntToDecimal(c.trueSize);
    DecimalHasNoSeparator(c.assembledSize, '\t');
    DecimalHasNoSeparator(c.assembledSize, '\n');
    DecimalHasNoSeparator(c.trueSize, '\t');
    DecimalHasNoSeparator(c.trueSize, '\n');
    var columns := c.umi + "\t" + a + "\t" + t;
    ColumnsShape(c.umi, a, t);
    CountCharConcat(columns, "\n", '\t');
    CountCharConcat(columns, "\n", '\n');
    assert Line(c) == columns + "\n";
    assert CountChar("\n", '\t') == 0 && CountChar("\n", '\n') == 1;
  }

  /** The header is three tab-separated column names on one line. */
  lemma HeaderShape()
    ensures CountChar(HEADER, '\t') == 2 && CountChar(HEADER, '\n') == 0
  {
    var umi, assembled, total := UMI_COLUMN, ASSEMBLED_COLUMN, TOTAL_COLUMN;
    CountCharAbsent(umi, '\t');
    CountCharAbsent(umi, '\n');
    CountCharAbsent(assembled, '\t');
    CountCharAbsent(assembled, '\n');
    CountCharAbsent(total, '\t');
    CountCharAbsent(total, '\n');
    ColumnsShape(umi, assembled, total);
  }

  /** The header has the same three tab-separated columns as every body line. */
  lemma HeaderMatchesLines(c: Consensus)
    requires CountChar(c.umi, '\t') == 0 && CountChar(c.umi, '\n') == 0
    ensures CountChar(HEADER, '\t') == CountChar(Line(c), '\t') == 2
    ensures CountChar(HEADER, '\n') == 0
  {
    HeaderShape();
    LineShape(c);
  }

  lemma {:induction false} ConcatMapAppend<T>(a: seq<T>, b: seq<T>, render: T -> string)
    ensures ConcatMap(a + b, render) == ConcatMap(a, render) + ConcatMap(b, render)
    decreases |b|
  {
    if b == [] {
      assert a + b == a;
    } else {
      var b', last := b[..|b| - 1], b[|b| - 1];
      assert (a + b)[..|a + b| - 1] == a + b';
      assert (a + b)[|a + b| - 1] == last;
      ConcatMapAppend(a, b', render);
    }
  }

  /** The body of a concatenated list is the concatenation of the bodies. */
  lemma BodyConcat(a: seq<Consensus>, b: seq<Consensus>)
    ensures Body(a + b) == Body(a) + Body(b)
  {
    ConcatMapAppend(a, b, Line);
  }

  /** The body holds one line per stored consensus: as many newlines as consensuses. */
  lemma {:induction false} BodyHasOneLinePerConsensus(consensuses: seq<Consensus>)
    requires forall i :: 0 <= i < |consensuses| ==>
      CountChar(consensuses[i].umi, '\t') == 0 && CountChar(consensuses[i].umi, '\n') == 0
    ensures CountChar(Body(consensuses), '\n') == |consensuses|
    decreases |consensuses|
  {
    if consensuses != [] {
      var n := |consensuses|;
      BodyHasOneLinePerConsensus(consensuses[..n - 1]);
      LineShape(consensuses[n - 1]);
      assert Body(consensuses) == Body(consensuses[..n - 1]) + Line(consensuses[n - 1]);
      CountCharConcat(Body(consensuses[..n - 1]), Line(consensuses[n - 1]), '\n');
    }
  }

  /** The observable state of an assembler. */
  datatype AssemblerState = AssemblerState(
    readsTotal: int, readsAssembled: int, migsTotal: int, migsAssembled: int,
    consensusList: seq<Consensus>, storeConsensuses: bool, cleared: bool)

  /** The state `clear()` leaves behind. */
  function Cleared(s: AssemblerState): (r: AssemblerState)
  {
    s.(consensusList := [], cleared := true)
  }

  /** `clear()` empties the list, sets `cleared`, keeps every counter, and a second
      `clear()` changes nothing more. */
  lemma ClearedProperties(s: AssemblerState)
    ensures Cleared(s).consensusList == [] && Cleared(s).cleared
    ensures Cleared(s).readsTotal == s.readsTotal && Cleared(s).readsAssembled == s.readsAssembled
    ensures Cleared(s).migsTotal == s.migsTotal && Cleared(s).migsAssembled == s.migsAssembled
    ensures Cleared(Cleared(s)) == Cleared(s)
    ensures Body(Cleared(s).consensusList) == ""
  {
  }

  /** The state an assembler shares with every subclass. The counters are Java atomics
      and the list a synchronized list; here they are plain fields. Their getters
      (`getReadsTotal` and so on) read the fields. */
  class Assembler {
    var readsTotal: int
    var readsAssembled: int
    var migsTotal: int
    var migsAssembled: int
    var consensusList: seq<Consensus>
    var storeConsensuses: bool
    var cleared: bool

    function State(): AssemblerState
      reads this
    {
      AssemblerState(readsTotal, readsAssembled, migsTotal, migsAssembled,
                     consensusList, storeConsensuses, cleared)
    }

    constructor ()
      ensures State() == AssemblerState(0, 0, 0, 0, [], true, false)
    {
      readsTotal, readsAssembled := 0, 0;
      migsTotal, migsAssembled := 0, 0;
      consensusList := [];
      storeConsensuses, cleared := true, false;
    }

    method Clear()
      modifies this
      ensures State() == Cleared(old(State()))
    {
      consensusList := [];
      cleared := true;
    }

    function GetHeader(): (h: string)
      ensures h == HEADER
    {
      HEADER
    }

    /** Appends one line per stored consensus, in list order. */
    method GetBody() returns (body: string)
      ensures body == Body(consensusList)
    {
      body := "";
      var i := 0;
      while i < |consensusList|
        invariant 0 <= i <= |consensusList|
        invariant body == Body(consensusList[..i])
      {
        var consensus := consensusList[i];
        assert consensusList[..i + 1][..i] == consensusList[..i];
        body := body + Line(consensus);
        i := i + 1;
      }
      assert consensusList[..i] == consensusList;
    }
  }
}
