/** The requests and replies that cross a channel (db/sqlite_shm_db.cc, sqlite-shm-srv/shm.cc). */
module Rpc {
  import opened MachineInts
  import opened Wrappers
  import opened Codec

  datatype Operation = Read | Scan | Insert | Update | Delete | Close

  function Opcode(op: Operation): byte {
    match op
    case Read => 'r' as int
    case Scan => 's' as int
    case Insert => 'i' as int
    case Update => 'u' as int
    case Delete => 'd' as int
    case Close => 'c' as int
  }

  /** The server's switch on the opcode; any other non-zero byte makes it throw. */
  function OperationOf(code: byte): Option<Operation> {
    if code == 'r' as int then Some(Read)
    else if code == 's' as int then Some(Scan)
    else if code == 'i' as int then Some(Insert)
    else if code == 'u' as int then Some(Update)
    else if code == 'd' as int then Some(Delete)
    else if code == 'c' as int then Some(Close)
    else None
  }

  /** What each request carries, in the order it is put in and taken out. */
  function RequestTypes(op: Operation): seq<Type> {
    match op
    case Read => [StringType, StringType, VectorType(StringType)]
    case Scan => [StringType, StringType, IntType, VectorType(StringType)]
    case Insert => [StringType, StringType, VectorType(PairType(StringType, StringType))]
    case Update => [StringType, StringType, VectorType(PairType(StringType, StringType))]
    case Delete => [StringType, StringType]
    case Close => []
  }

  function ReplyTypes(op: Operation): seq<Type> {
    match op
    case Read => [VectorType(PairType(StringType, StringType))]
    case Scan => [VectorType(VectorType(PairType(StringType, StringType)))]
    case _ => []
  }

  datatype Request = Request(op: Operation, args: seq<Value>)

  predicate WellFormed(r: Request) {
    HaveTypes(r.args, RequestTypes(r.op))
  }

  function RequestBytes(r: Request): seq<byte> {
    EncodeAll(r.args)
  }

  /** Room for a message in a dataspace of 1 MiB whose first byte is the flag. */
  const WINDOW: nat := 0x10_0000 - 1

  lemma OpcodesDistinct(op: Operation)
    ensures OperationOf(Opcode(op)) == Some(op) && Opcode(op) != 0
  {
  }
}
