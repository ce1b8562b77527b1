/** Identifiers and values shared by the storage engine, the lock manager and the operators. */
module Common {

  datatype Option<+T> = None | Some(value: T)

  /** The exceptions the core raises, by kind. */
  datatype Error =
    | IllegalArgument       // IllegalArgumentException
    | DbError               // DbException
    | NoSuchElement         // NoSuchElementException
    | NullPointer           // a null dereference
    | IoError               // IOException
    | Aborted               // TransactionAbortedException
    | Runtime               // RuntimeException raised by the abort-others deadlock policy
    | IndexOutOfBounds      // IndexOutOfBoundsException

  datatype Result<+T> = Ok(value: T) | Err(error: Error)

  /** A transaction identifier; equality is by value. */
  datatype TransactionId = TransactionId(id: int)

  /** A page identifier: the table it belongs to and its page number in that table's file. */
  datatype PageId = PageId(tableId: int, pageNumber: int)

  /** READ_ONLY asks for a shared lock, READ_WRITE for an exclusive one. */
  datatype Permission = ReadOnly | ReadWrite

  newtype byte = x: int | 0 <= x < 256

  /** A field value of a tuple. */
  datatype Field = IntField(i: int) | StringField(s: string)

  /** Where a stored tuple lives: its page and its slot on that page. */
  datatype RecordId = RecordId(pageId: PageId, tupleNumber: int)

  /** A tuple: its field values and, for a stored tuple, its record id. */
  datatype Tuple = Tuple(fields: seq<Field>, rid: Option<RecordId>)

  /** Java's 32-bit `int`: the value that `x` wraps around to. */
  function Wrap32(x: int): (r: int)
    ensures -0x8000_0000 <= r < 0x8000_0000
    ensures (r - x) % 0x1_0000_0000 == 0
  {
    (x + 0x8000_0000) % 0x1_0000_0000 - 0x8000_0000
  }

  predicate IsInt32(x: int) {
    -0x8000_0000 <= x < 0x8000_0000
  }

  /** No element occurs twice. */
  predicate Distinct<T(==)>(s: seq<T>) {
    forall i, j | 0 <= i < j < |s| :: s[i] != s[j]
  }

  /**
   * Copying a hash set into a list: every element once, in an order the
   * set chooses.
   */
  method Enumerate<T>(S: set<T>) returns (s: seq<T>)
    ensures Distinct(s) && |s| == |S|
    ensures forall x :: x in s <==> x in S
  {
    s := [];
    var rest := S;
    while rest != {}
      invariant rest <= S && Distinct(s) && |s| + |rest| == |S|
      invariant forall x :: x in s <==> x in S && x !in rest
      decreases |rest|
    {
      var x :| x in rest;
      s := s + [x];
      rest := rest - {x};
    }
  }
}
