/** CKB transactions as the scripts see them, with the cells behind the inputs already loaded. */
module Chain {
  import opened Bytes
  import opened Seqs
  import opened Molecule
  import opened Scan

  datatype OutPoint = OutPoint(txHash: Bytes32, index: u32)

  datatype Cell = Cell(capacity: u64, lock: Script, typ: Option<Script>, data: seq<byte>)

  datatype Input = Input(outPoint: OutPoint, since: u64, cell: Cell)

  datatype Tx = Tx(inputs: seq<Input>, outputs: seq<Cell>, witnesses: seq<seq<byte>>)

  /** tx_hash(32) | index(4 LE). */
  function OutPointBytes(o: OutPoint): (b: seq<byte>)
    ensures |b| == 36
  {
    o.txHash + Le4(o.index)
  }

  lemma OutPointInjective(o: OutPoint, o': OutPoint)
    requires OutPointBytes(o) == OutPointBytes(o')
    ensures o == o'
  {
    hide Le4;
    CancelFirst<byte>(o.txHash, Le4(o.index), o'.txHash, Le4(o'.index));
    U32Written(Le4(o.index), 0, o.index);
    U32Written(Le4(o'.index), 0, o'.index);
  }

  function ScriptHash(s: Script, blake: Hasher): Bytes32 {
    blake(EncodeScript(s))
  }

  /** The data hash of a cell; zero for empty data. */
  function DataHash(data: seq<byte>, blake: Hasher): Bytes32 {
    if data == [] then ZERO_32 else blake(data)
  }

  function HasDataHash(target: Bytes32, blake: Hasher): Input -> bool {
    (i: Input) => DataHash(i.cell.data, blake) == target
  }

  /** `find_input_by_data_hash`: the only input whose data hashes to a non-zero target. */
  function FindInput(inputs: seq<Input>, target: Bytes32, blake: Hasher): (i: Option<nat>)
    ensures i.Some? ==> i.value < |inputs|
  {
    if target == ZERO_32 then None else Unique(inputs, HasDataHash(target, blake))
  }

  /** The same as a loop over the inputs. */
  method FindInputByDataHash(inputs: seq<Input>, target: Bytes32, blake: Hasher) returns (found: Option<nat>)
    ensures found == FindInput(inputs, target, blake)
  {
    if target == ZERO_32 {
      return None;
    }
    found := FindUnique(inputs, HasDataHash(target, blake));
  }

  /** An input is found iff it alone has non-empty data with this hash, and the hash is not zero. */
  lemma FoundInput(inputs: seq<Input>, target: Bytes32, blake: Hasher, i: nat)
    ensures FindInput(inputs, target, blake) == Some(i)
       <==> target != seq(32, _ => 0) && i < |inputs|
            && forall j :: 0 <= j < |inputs| ==>
                 (j == i <==> inputs[j].cell.data != [] && blake(inputs[j].cell.data) == target)
  {
    var p := HasDataHash(target, blake);
    var zero := seq(32, _ => 0);
    assert zero == ZERO_32;
    UniqueExact(inputs, p, i);
    if target != ZERO_32 {
      assert forall j :: 0 <= j < |inputs| ==>
        (p(inputs[j]) <==> inputs[j].cell.data != [] && blake(inputs[j].cell.data) == target);
    }
  }
}
