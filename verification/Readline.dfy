/** readline: the buffered form in the library against the form that reads one byte at a time. */
module Readline {
  import opened Text

  const NEWLINE: Byte := 10

  // ----- the descriptor -----

  /** What the descriptor holds, byte by byte, ends of file and errors in their places; more may follow either. */
  datatype Item = B(b: Byte) | E | X

  /** What successive reads of up to MAXLINE bytes answer: some bytes, an interrupted call, the end of file,
      or any other error. */
  datatype Reply = Chunk(bytes: seq<Byte>) | Interrupted | EndOfFile | Failed

  function Items(bytes: seq<Byte>): (r: seq<Item>)
    ensures |r| == |bytes|
  {
    seq(|bytes|, i requires 0 <= i < |bytes| => B(bytes[i]))
  }

  /** What the descriptor has to give by these answers. */
  function Flatten(replies: seq<Reply>): seq<Item> {
    if replies == [] then []
    else match replies[0]
      case Chunk(bytes) => Items(bytes) + Flatten(replies[1..])
      case Interrupted => Flatten(replies[1..])
      case EndOfFile => [E] + Flatten(replies[1..])
      case Failed => [X] + Flatten(replies[1..])
  }

  function ItemsOf(r: Reply): seq<Item> {
    match r
    case Chunk(bytes) => Items(bytes)
    case Interrupted => []
    case EndOfFile => [E]
    case Failed => [X]
  }

  lemma FlattenStep(r: Reply, replies: seq<Reply>)
    ensures Flatten([r] + replies) == ItemsOf(r) + Flatten(replies)
  {
    assert ([r] + replies)[1..] == replies;
  }

  lemma FlattenNothing()
    ensures Flatten([]) == []
  {
  }

  lemma {:induction false} FlattenConcat(a: seq<Reply>, b: seq<Reply>)
    ensures Flatten(a + b) == Flatten(a) + Flatten(b)
  {
    hide Flatten;
    hide ItemsOf;
    if a == [] {
      FlattenNothing();
      assert a + b == b;
    } else {
      FlattenConcat(a[1..], b);
      FlattenStep(a[0], a[1..]);
      FlattenStep(a[0], a[1..] + b);
      assert a == [a[0]] + a[1..] && a + b == [a[0]] + (a[1..] + b);
      assert ItemsOf(a[0]) + (Flatten(a[1..]) + Flatten(b)) == ItemsOf(a[0]) + Flatten(a[1..]) + Flatten(b);
    }
  }

  /** The same descriptor wherever a chunk is cut, and an interrupted call adds nothing; an end of file and an error
      each keep their place. */
  lemma CutsDoNotMatter(a: seq<Reply>, x: seq<Byte>, y: seq<Byte>, b: seq<Reply>)
    ensures Flatten(a + [Chunk(x), Chunk(y)] + b) == Flatten(a + [Chunk(x + y)] + b)
    ensures Flatten(a + [Chunk(x + y)] + b) == Flatten(a) + Items(x + y) + Flatten(b)
    ensures Flatten(a + [Interrupted] + b) == Flatten(a + b)
    ensures Flatten(a + [EndOfFile] + b) == Flatten(a) + [E] + Flatten(b)
    ensures Flatten(a + [Failed] + b) == Flatten(a) + [X] + Flatten(b)
  {
    hide Flatten;
    OneReply(Chunk(x));
    OneReply(Chunk(y));
    OneReply(Chunk(x + y));
    OneReply(Interrupted);
    OneReply(EndOfFile);
    OneReply(Failed);
    ItemsConcat(x, y);
    FlattenConcat([Chunk(x)], [Chunk(y)]);
    assert [Chunk(x)] + [Chunk(y)] == [Chunk(x), Chunk(y)];
    FlattenConcat(a, b);
    Between(a, [Chunk(x), Chunk(y)], b);
    Between(a, [Chunk(x + y)], b);
    Between(a, [Interrupted], b);
    Between(a, [EndOfFile], b);
    Between(a, [Failed], b);
    assert Flatten(a) + [] == Flatten(a);
  }

  lemma Between(a: seq<Reply>, m: seq<Reply>, b: seq<Reply>)
    ensures Flatten(a + m + b) == Flatten(a) + Flatten(m) + Flatten(b)
  {
    FlattenConcat(a, m);
    FlattenConcat(a + m, b);
  }

  lemma OneReply(r: Reply)
    ensures Flatten([r]) == ItemsOf(r)
  {
    FlattenStep(r, []);
    FlattenNothing();
    assert [r] + [] == [r] && ItemsOf(r) + [] == ItemsOf(r);
  }

  function Bytes(items: seq<Item>): seq<Byte> {
    if items == [] then []
    else match items[0]
      case B(b) => [b] + Bytes(items[1..])
      case _ => Bytes(items[1..])
  }

  /** What a read of one byte answers: 1 with a byte, 0 at the end of file, -1 for an error. */
  function Answer(items: seq<Item>): int {
    if items == [] || items[0].E? then 0 else if items[0].X? then -1 else 1
  }

  function Rest(items: seq<Item>): seq<Item> { if items == [] then [] else items[1..] }

  // ----- the specification -----

  /** Why a line stops. */
  datatype Stop = AtNewline | AtEof | Full | AtError

  datatype Line = Line(stored: seq<Byte>, rest: seq<Item>, stop: Stop)

  /** Bytes up to and with a newline, to the end of file or an error, or as many as fit;
      with nothing left it is the end of file. */
  function Next(items: seq<Item>, room: nat): (l: Line)
    ensures |l.stored| <= room && (l.stop.Full? <==> |l.stored| == room && (room > 0 ==> Last(l.stored) != NEWLINE))
    ensures l.stop.AtNewline? ==> l.stored != [] && Last(l.stored) == NEWLINE
    ensures forall i :: 0 <= i < |l.stored| - 1 ==> l.stored[i] != NEWLINE
    ensures l.stop.AtEof? || l.stop.AtError? ==> NEWLINE !in l.stored
    decreases room
  {
    if room == 0 then Line([], items, Full)
    else if items == [] then Line([], [], AtEof)
    else match items[0]
      case E => Line([], items[1..], AtEof)
      case X => Line([], items[1..], AtError)
      case B(b) =>
        if b == NEWLINE then Line([b], items[1..], AtNewline)
        else
          var l := Next(items[1..], room - 1);
          l.(stored := [b] + l.stored)
  }

  /** Where a line stops: the items are its bytes, then the end of file or the error that stopped it, then the rest. */
  ghost predicate StopsRight(items: seq<Item>, l: Line) {
    var line := Items(l.stored);
    match l.stop
    case AtNewline => items == line + l.rest
    case Full => items == line + l.rest
    case AtEof => items == line + ([E] + l.rest) || (items == line && l.rest == [])
    case AtError => items == line + ([X] + l.rest)
  }

  lemma OneByteMore(b: Byte, items: seq<Item>, l: Line)
    requires StopsRight(items, l)
    ensures StopsRight([B(b)] + items, l.(stored := [b] + l.stored))
  {
    ItemsConcat([b], l.stored);
    OneItem(b);
    hide Items;
    assert [B(b)] + (Items(l.stored) + l.rest) == [B(b)] + Items(l.stored) + l.rest;
    assert [B(b)] + (Items(l.stored) + ([E] + l.rest)) == [B(b)] + Items(l.stored) + ([E] + l.rest);
    assert [B(b)] + (Items(l.stored) + ([X] + l.rest)) == [B(b)] + Items(l.stored) + ([X] + l.rest);
  }

  lemma OneItem(b: Byte)
    ensures Items([b]) == [B(b)] && Items([]) == []
  {
  }

  lemma {:induction false} NextShape(items: seq<Item>, room: nat)
    ensures StopsRight(items, Next(items, room))
    decreases room
  {
    if room > 0 && items != [] {
      assert items == [items[0]] + items[1..];
      if items[0].B? && items[0].b != NEWLINE {
        hide StopsRight;
        NextShape(items[1..], room - 1);
        OneByteMore(items[0].b, items[1..], Next(items[1..], room - 1));
      } else if items[0].B? {
        OneItem(items[0].b);
      }
    }
  }

  /** What readline in the library returns, and what the one-byte form returns. */
  function LibraryCount(l: Line): int {
    if l.stop.AtError? then -1 else |l.stored| + if l.stop.Full? then 1 else 0
  }

  function OneByteCount(l: Line): int {
    if l.stop.AtError? then -1
    else if l.stop.AtEof? && l.stored == [] then 0
    else |l.stored| + if l.stop.AtNewline? then 0 else 1
  }

  /** Both forms return the length of a whole line and the buffer's size, room and one, for one that is cut; they differ
      exactly for text that the end of file cuts short, which one counts as it is and the other with its NUL. */
  lemma CountsDiffer(items: seq<Item>, room: nat)
    ensures var l := Next(items, room); var m, n := LibraryCount(l), OneByteCount(l);
            && (m != n <==> l.stop.AtEof? && l.stored != [])
            && (l.stop.AtNewline? ==> m == |l.stored|) && (l.stop.Full? ==> m == room + 1)
            && (l.stop.AtEof? ==> m == |l.stored|) && (l.stop.AtError? ==> m == -1)
            && (m != n ==> n == m + 1)
  {
  }

  /** The lines of successive calls with these buffer sizes, and what they leave. */
  function Lines(items: seq<Item>, rooms: seq<nat>): (seq<seq<Byte>>, seq<Item>)
    decreases |rooms|
  {
    if rooms == [] then ([], items)
    else
      var l := Next(items, rooms[0]);
      var (more, rest) := Lines(l.rest, rooms[1..]);
      ([l.stored] + more, rest)
  }

  function Concat(lines: seq<seq<Byte>>): seq<Byte> {
    if lines == [] then [] else lines[0] + Concat(lines[1..])
  }

  lemma {:induction false} NextKeepsBytes(items: seq<Item>, room: nat)
    ensures var l := Next(items, room); Bytes(items) == l.stored + Bytes(l.rest)
    decreases room
  {
    if room > 0 && items != [] && items[0].B? && items[0].b != NEWLINE {
      NextKeepsBytes(items[1..], room - 1);
    }
  }

  /** Calls in a row hand out the descriptor's bytes, each once and in order. */
  lemma {:induction false} LinesDeliverEverything(items: seq<Item>, rooms: seq<nat>)
    ensures var (lines, rest) := Lines(items, rooms); Bytes(items) == Concat(lines) + Bytes(rest)
    decreases |rooms|
  {
    if rooms != [] {
      var l := Next(items, rooms[0]);
      NextKeepsBytes(items, rooms[0]);
      LinesDeliverEverything(l.rest, rooms[1..]);
      var (more, rest) := Lines(l.rest, rooms[1..]);
      assert ([l.stored] + more)[1..] == more;
      assert l.stored + (Concat(more) + Bytes(rest)) == l.stored + Concat(more) + Bytes(rest);
    }
  }

  lemma ItemsConcat(a: seq<Byte>, b: seq<Byte>)
    ensures Items(a + b) == Items(a) + Items(b)
  {
  }

  // ----- the one-byte form -----

  class OneByteReader {
    var items: seq<Item>

    constructor (items: seq<Item>)
      ensures this.items == items
    {
      this.items := items;
    }

    /** read of one byte. */
    method ReadByte() returns (rc: int, c: Byte)
      modifies this
      ensures rc == Answer(old(items)) && items == Rest(old(items))
      ensures rc == 1 ==> old(items)[0] == B(c)
    {
      rc, c := 0, 0;
      if items != [] {
        match items[0] {
          case B(b) => rc, c := 1, b;
          case E =>
          case X => rc := -1;
        }
        items := items[1..];
      }
    }

    method Readline(vptr: array<Byte>, maxlen: nat) returns (count: int)
      requires 1 <= maxlen <= vptr.Length
      modifies this, vptr
      ensures var l := Next(old(items), maxlen - 1);
              && items == l.rest && count == OneByteCount(l) && Holds(vptr[..], l.stored, count > 0)
    {
      hide Next;
      hide Prefixed;
      hide Answer;
      hide Rest;
      hide Holds;
      ghost var line, done := Next(items, maxlen - 1), [];
      NothingYet(line);
      var ptr := 0;
      var n := 1;
      while n < maxlen
        invariant n == ptr + 1 <= maxlen && vptr[..ptr] == done
        invariant line == Prefixed(done, Next(items, maxlen - n))
      {
        NextStep(done, items, maxlen - n);
        var rc, c := ReadByte();
        if rc == 1 {
          vptr[ptr] := c;
          ptr := ptr + 1;
          done := done + [c];
          if c == NEWLINE {
            break;
          }
        } else if rc == 0 {
          if n == 1 {
            HoldsSoFar(vptr[..], ptr, done);
            return 0;
          } else {
            break;
          }
        } else {
          HoldsSoFar(vptr[..], ptr, done);
          return -1;
        }
        n := n + 1;
      }
      NextFull(done, items);
      vptr[ptr] := 0;
      HoldsWithNul(vptr[..], ptr, done);
      return n;
    }

    /** Calls in a row, each into a new buffer with room for that many bytes and the NUL. */
    method ReadLines(rooms: seq<nat>) returns (bufs: seq<seq<Byte>>)
      modifies this
      ensures var (lines, rest) := Lines(old(items), rooms); items == rest && StartWith(bufs, lines)
    {
      hide Next;
      hide Lines;
      bufs := [];
      ghost var done: seq<seq<Byte>> := [];
      LinesBegin(items, rooms);
      for k := 0 to |rooms|
        invariant |done| == k && StartWith(bufs, done)
        invariant Lines(old(items), rooms) == After(done, Lines(items, rooms[k..]))
      {
        NextLine(done, items, rooms[k..]);
        assert rooms[k..][1..] == rooms[k + 1..];
        ghost var l := Next(items, rooms[k]);
        var vptr := new Byte[rooms[k] + 1](_ => 0);
        var _ := Readline(vptr, rooms[k] + 1);
        bufs := bufs + [vptr[..]];
        done := done + [l.stored];
      }
      LinesEnd(done, items, rooms[|rooms|..]);
    }
  }

  /** The buffer starts with these bytes, and a NUL after them if there is one. */
  ghost predicate Holds(buf: seq<Byte>, stored: seq<Byte>, nul: bool) {
    stored <= buf && (nul ==> |stored| < |buf| && buf[|stored|] == 0)
  }

  lemma HoldsWithNul(buf: seq<Byte>, n: nat, stored: seq<Byte>)
    requires n < |buf| && buf[..n] == stored && buf[n] == 0
    ensures Holds(buf, stored, true) && Holds(buf, stored, false)
  {
  }

  lemma HoldsSoFar(buf: seq<Byte>, n: nat, stored: seq<Byte>)
    requires n <= |buf| && buf[..n] == stored
    ensures Holds(buf, stored, false)
  {
  }

  /** Each buffer starts with its line. */
  ghost predicate StartWith(bufs: seq<seq<Byte>>, lines: seq<seq<Byte>>) {
    |bufs| == |lines| && forall k :: 0 <= k < |bufs| ==> lines[k] <= bufs[k]
  }

  function After(done: seq<seq<Byte>>, more: (seq<seq<Byte>>, seq<Item>)): (seq<seq<Byte>>, seq<Item>) {
    (done + more.0, more.1)
  }

  lemma LinesBegin(items: seq<Item>, rooms: seq<nat>)
    ensures After([], Lines(items, rooms[0..])) == Lines(items, rooms)
  {
    assert rooms[0..] == rooms && [] + Lines(items, rooms).0 == Lines(items, rooms).0;
  }

  lemma LinesEnd(done: seq<seq<Byte>>, items: seq<Item>, rooms: seq<nat>)
    requires rooms == []
    ensures After(done, Lines(items, rooms)) == (done, items)
  {
    assert done + [] == done;
  }

  lemma {:induction false} ConcatSnoc(lines: seq<seq<Byte>>, last: seq<Byte>)
    ensures Concat(lines + [last]) == Concat(lines) + last
  {
    if lines != [] {
      ConcatSnoc(lines[1..], last);
      assert (lines + [last])[1..] == lines[1..] + [last];
    }
  }

  lemma NextLine(done: seq<seq<Byte>>, items: seq<Item>, rooms: seq<nat>)
    requires rooms != []
    ensures var l := Next(items, rooms[0]);
            After(done, Lines(items, rooms)) == After(done + [l.stored], Lines(l.rest, rooms[1..]))
  {
    var l := Next(items, rooms[0]);
    var more := Lines(l.rest, rooms[1..]).0;
    assert done + ([l.stored] + more) == done + [l.stored] + more;
  }

  // ----- the buffered form -----

  /** The statics of lib/readline.c over a descriptor. taken and delivered record what read has given
      and what readline has handed out. */
  class BufferedReader {
    const readBuf: array<Byte>
    var readCnt: int
    var readPtr: nat
    var replies: seq<Reply>
    ghost var taken: seq<Byte>
    ghost var delivered: seq<Byte>

    /** readCnt is -1 after a read that failed. */
    ghost predicate Valid()
      reads this, readBuf
    {
      && readBuf.Length == MAXLINE && -1 <= readCnt && readPtr + readCnt <= MAXLINE && readPtr <= MAXLINE
      && taken == delivered + Exposed()
    }

    /** What readlinebuf exposes. */
    ghost function Exposed(): seq<Byte>
      requires readPtr + readCnt <= readBuf.Length
      reads this, readBuf
    {
      if readCnt <= 0 then [] else readBuf[readPtr..readPtr + readCnt]
    }

    /** What is still to be read, whether in the buffer or not. */
    ghost function Pending(): seq<Item>
      requires Valid()
      reads this, readBuf
    {
      Items(Exposed()) + Flatten(replies)
    }

    constructor (replies: seq<Reply>)
      ensures Valid() && Pending() == Flatten(replies) && delivered == [] && fresh(readBuf)
    {
      readBuf := new Byte[MAXLINE];
      readCnt, readPtr := 0, 0;
      this.replies := replies;
      taken, delivered := [], [];
    }

    /** One read into the empty buffer, repeated while it is interrupted. */
    method Refill() returns (rc: int)
      requires Valid() && readCnt <= 0
      modifies this, readBuf
      ensures Valid() && delivered == old(delivered) && rc == Answer(old(Pending()))
      ensures rc == 1 ==> readCnt > 0 && Pending() == old(Pending())
      ensures rc != 1 ==> readCnt == rc && Pending() == Rest(old(Pending()))
    {
      assert Exposed() == [] && Items([]) == [];
      while replies != []
        invariant Valid() && readCnt <= 0 && delivered == old(delivered) && Exposed() == []
        invariant Flatten(replies) == old(Pending())
        decreases |replies|
      {
        match replies[0] {
          case Interrupted => replies := replies[1..];
          case EndOfFile =>
            replies := replies[1..];
            readCnt := 0;
            return 0;
          case Failed =>
            replies := replies[1..];
            readCnt := -1;
            return -1;
          case Chunk(bytes) =>
            if bytes == [] {
              assert Items(bytes) == [];
              replies := replies[1..];
            } else {
              Fill(bytes);
              return 1;
            }
        }
      }
      readCnt := 0;
      return 0;
    }

    /** The bytes read go to the front of the buffer; more than fit stay with the descriptor. */
    method Fill(bytes: seq<Byte>)
      requires Valid() && readCnt <= 0 && replies != [] && replies[0] == Chunk(bytes) && bytes != []
      modifies this, readBuf
      ensures Valid() && delivered == old(delivered) && readCnt > 0
      ensures Pending() == Flatten(old(replies)) && Pending()[0] == B(bytes[0])
    {
      var n := if |bytes| <= MAXLINE then |bytes| else MAXLINE;
      forall k | 0 <= k < n {
        readBuf[k] := bytes[k];
      }
      readPtr, readCnt := 0, n;
      replies := [Chunk(bytes[n..])] + replies[1..];
      taken := taken + bytes[..n];
      assert Exposed() == bytes[..n] && bytes == bytes[..n] + bytes[n..];
      ItemsConcat(bytes[..n], bytes[n..]);
      assert replies[1..] == old(replies)[1..];
      assert Items(bytes[..n]) + (Items(bytes[n..]) + Flatten(replies[1..]))
          == Items(bytes[..n]) + Items(bytes[n..]) + Flatten(replies[1..]);
    }

    /** One byte out of a buffer that holds some. */
    method TakeByte() returns (c: Byte)
      requires Valid() && readCnt > 0
      modifies this
      ensures Valid() && readCnt >= 0 && delivered == old(delivered) + [c]
      ensures Answer(old(Pending())) == 1 && old(Pending())[0] == B(c) && Pending() == Rest(old(Pending()))
    {
      hide Flatten;
      hide Items;
      hide Exposed;
      hide Pending;
      hide Answer;
      hide Rest;
      ghost var was := Exposed();
      ExposedIs();
      PendingIs();
      TakeOne(was, Flatten(replies));
      readCnt := readCnt - 1;
      c := readBuf[readPtr];
      readPtr := readPtr + 1;
      delivered := delivered + [c];
      ExposedIs();
      assert was == [c] + Exposed() && was[1..] == Exposed();
      assert delivered + Exposed() == old(delivered) + was;
      PendingIs();
    }

    lemma ExposedIs()
      requires 0 <= readCnt && readPtr + readCnt <= readBuf.Length
      ensures Exposed() == readBuf[readPtr..readPtr + readCnt]
    {
    }

    lemma PendingIs()
      requires Valid()
      ensures Pending() == Items(Exposed()) + Flatten(replies)
    {
    }

    /** my_read. */
    method MyRead() returns (rc: int, c: Byte)
      requires Valid()
      modifies this, readBuf
      ensures Valid() && rc == Answer(old(Pending())) && Pending() == Rest(old(Pending()))
      ensures rc == 1 ==> old(Pending())[0] == B(c)
      ensures delivered == if rc == 1 then old(delivered) + [c] else old(delivered)
      ensures readCnt == -1 <==> rc == -1
    {
      hide Pending;
      hide Exposed;
      hide Valid;
      rc, c := 1, 0;
      if readCnt <= 0 {
        rc := Refill();
        if rc != 1 {
          return;
        }
      }
      c := TakeByte();
    }

    /** The loop's body up to its test of the byte: one more byte of the line, stored behind those done. */
    method StoreNext(vptr: array<Byte>, ptr: nat, ghost line: Line, ghost done: seq<Byte>, ghost room: nat)
        returns (rc: int, c: Byte)
      requires Valid() && vptr != readBuf && ptr < vptr.Length && vptr[..ptr] == done
      requires room > 0 && line == Prefixed(done, Next(Pending(), room))
      modifies this, readBuf, vptr
      ensures Valid() && rc in {-1, 0, 1} && (readCnt == -1 <==> rc == -1)
      ensures delivered == if rc == 1 then old(delivered) + [c] else old(delivered)
      ensures vptr[..ptr] == done && (rc == 1 ==> vptr[ptr] == c)
      ensures rc == 0 ==> line == Line(done, Pending(), AtEof)
      ensures rc == -1 ==> line == Line(done, Pending(), AtError)
      ensures rc == 1 && c == NEWLINE ==> line == Line(done + [c], Pending(), AtNewline)
      ensures rc == 1 && c != NEWLINE ==> line == Prefixed(done + [c], Next(Pending(), room - 1))
    {
      hide Pending;
      hide Exposed;
      hide Valid;
      hide Next;
      hide Prefixed;
      hide Answer;
      hide Rest;
      NextStep(done, Pending(), room);
      rc, c := MyRead();
      if rc == 1 {
        vptr[ptr] := c;
      }
    }

    method Readline(vptr: array<Byte>, maxlen: nat) returns (count: int)
      requires Valid() && vptr != readBuf && 1 <= maxlen <= vptr.Length
      modifies this, readBuf, vptr
      ensures Valid()
      ensures var l := Next(old(Pending()), maxlen - 1);
              && Pending() == l.rest && count == LibraryCount(l) && Holds(vptr[..], l.stored, count >= 0)
              && delivered == old(delivered) + l.stored
              && (maxlen > 1 ==> (readCnt == -1 <==> l.stop.AtError?))
    {
      hide Pending;
      hide Exposed;
      hide Valid;
      hide Next;
      hide Prefixed;
      hide Holds;
      ghost var line, done := Next(Pending(), maxlen - 1), [];
      NothingYet(line);
      var ptr := 0;
      var n := 1;
      while n < maxlen
        invariant n == ptr + 1 <= maxlen && vptr[..ptr] == done && Valid()
        invariant line == Prefixed(done, Next(Pending(), maxlen - n))
        invariant delivered == old(delivered) + done
        invariant n > 1 ==> readCnt != -1
      {
        var rc, c := StoreNext(vptr, ptr, line, done, maxlen - n);
        if rc == 1 {
          ptr := ptr + 1;
          done := done + [c];
          if c == NEWLINE {
            break;
          }
        } else if rc == 0 {
          vptr[ptr] := 0;
          HoldsWithNul(vptr[..], ptr, done);
          return n - 1;
        } else {
          HoldsSoFar(vptr[..], ptr, done);
          return -1;
        }
        n := n + 1;
      }
      NextFull(done, Pending());
      vptr[ptr] := 0;
      HoldsWithNul(vptr[..], ptr, done);
      return n;
    }

    /** Calls in a row, each into a new buffer with room for that many bytes and the NUL. */
    method ReadLines(rooms: seq<nat>) returns (bufs: seq<seq<Byte>>)
      requires Valid()
      modifies this, readBuf
      ensures Valid()
      ensures var (lines, rest) := Lines(old(Pending()), rooms);
              Pending() == rest && StartWith(bufs, lines) && delivered == old(delivered) + Concat(lines)
    {
      hide Pending;
      hide Exposed;
      hide Valid;
      hide Next;
      hide Lines;
      bufs := [];
      ghost var done: seq<seq<Byte>> := [];
      LinesBegin(Pending(), rooms);
      for k := 0 to |rooms|
        invariant |done| == k && Valid() && StartWith(bufs, done)
        invariant Lines(old(Pending()), rooms) == After(done, Lines(Pending(), rooms[k..]))
        invariant delivered == old(delivered) + Concat(done)
      {
        NextLine(done, Pending(), rooms[k..]);
        assert rooms[k..][1..] == rooms[k + 1..];
        ghost var l := Next(Pending(), rooms[k]);
        var vptr := new Byte[rooms[k] + 1](_ => 0);
        var _ := Readline(vptr, rooms[k] + 1);
        bufs := bufs + [vptr[..]];
        ConcatSnoc(done, l.stored);
        done := done + [l.stored];
      }
      LinesEnd(done, Pending(), rooms[|rooms|..]);
    }

    /** readlinebuf; -1 only when the last read failed. */
    method Readlinebuf() returns (count: int, exposed: seq<Byte>)
      requires Valid()
      ensures exposed == Exposed() && taken == delivered + exposed
      ensures count == if readCnt == -1 then -1 else |exposed|
    {
      exposed := if readCnt > 0 then readBuf[readPtr..readPtr + readCnt] else [];
      count := readCnt;
    }
  }

  lemma TakeOne(b: seq<Byte>, f: seq<Item>)
    requires b != []
    ensures var all := Items(b) + f;
            Answer(all) == 1 && all != [] && all[0] == B(b[0]) && Rest(all) == Items(b[1..]) + f
  {
    assert Items(b) == [B(b[0])] + Items(b[1..]);
  }

  function Prefixed(p: seq<Byte>, l: Line): Line { l.(stored := p + l.stored) }

  /** One more item of the line whose bytes so far are p. */
  lemma NextStep(p: seq<Byte>, items: seq<Item>, room: nat)
    requires room > 0
    ensures var line := Prefixed(p, Next(items, room));
            && (Answer(items) == 0 ==> line == Line(p, Rest(items), AtEof))
            && (Answer(items) == -1 ==> line == Line(p, Rest(items), AtError))
            && (Answer(items) == 1 ==> items != [] && items[0].B?)
            && (Answer(items) == 1 && items[0].b == NEWLINE ==> line == Line(p + [NEWLINE], Rest(items), AtNewline))
            && (Answer(items) == 1 && items[0].b != NEWLINE ==>
                  line == Prefixed(p + [items[0].b], Next(Rest(items), room - 1)))
    ensures Answer(items) in {-1, 0, 1}
  {
    assert p + [] == p;
    if items != [] && items[0].B? && items[0].b != NEWLINE {
      PrefixedSnoc(p, items[0].b, Next(items[1..], room - 1));
    }
  }

  lemma NothingYet(l: Line)
    ensures Prefixed([], l) == l
  {
    assert [] + l.stored == l.stored;
  }

  lemma NextFull(p: seq<Byte>, items: seq<Item>)
    ensures Prefixed(p, Next(items, 0)) == Line(p, items, Full)
  {
    assert p + [] == p;
  }

  lemma PrefixedSnoc(p: seq<Byte>, c: Byte, l: Line)
    ensures Prefixed(p, l.(stored := [c] + l.stored)) == Prefixed(p + [c], l)
  {
    assert p + ([c] + l.stored) == p + [c] + l.stored;
  }
}
