/** serial.c: the UBRR baud divisor split, `uart_getchar`, the bounded line
    reader `uart_getline`, `uart_putstr` and their composition `uart_echo`.

    The receiver is abstracted to `input`, the bytes successive `uart_getchar`
    calls return; once it is used up the receiver has no data and the call
    returns the no-data sentinel. Transmission is the list of bytes handed to
    `uart_putchar`, in order. */
module Serial {
  import opened Words
  import opened Bits

  /** serial.h: CPU clock, baud rate and the UBRR divisor they give. */
  const F_CPU: int := 16_000_000
  const BAUD: int := 38_400
  const UBRR: uint32 := F_CPU / 16 / BAUD - 1

  /** The two divisor registers `uart_init` writes, high byte first. */
  datatype BaudRegisters = BaudRegisters(ubrr0h: uint8, ubrr0l: uint8)

  /** `UBRR0L = UBRR & 0xFF; UBRR0H = UBRR >> 8;` with both narrowed to
      `uint8_t`. For an unsigned value `& 0xFF` keeps the remainder modulo 256
      and `>> 8` is the quotient by 256. */
  function SplitDivisor(ubrr: uint32): (r: BaudRegisters)
    ensures ubrr < 0x1_0000 ==> r.ubrr0h * 256 + r.ubrr0l == ubrr
    ensures r.ubrr0l == ubrr % 256
  {
    BaudRegisters(Low8(ubrr / 256), Low8(ubrr % 256))
  }

  /** With serial.h's 16 MHz clock and 38 400 baud the divisor is 25: the
      high register gets 0 and the low register 25. */
  lemma DivisorAtBoardSettings()
    ensures UBRR == 25
    ensures SplitDivisor(UBRR) == BaudRegisters(0, 25)
  {
  }

  /** Receive Complete bit of UCSR0A on the ATmega328P. */
  const RXC0: BitIndex := 7

  /** `return -1;` from a function returning `unsigned char`. */
  const NO_DATA: uint8 := 0xFF

  const CR: uint8 := 13
  const LF: uint8 := 10

  /** `uart_getchar()` given the status register UCSR0A and the data register
      UDR0. */
  function UartGetchar(ucsr0a: bv8, udr0: uint8): (c: uint8)
    ensures !IsSet(ucsr0a, RXC0) ==> c == NO_DATA
    ensures IsSet(ucsr0a, RXC0) ==> c == udr0
  {
    MaskTestsBit(ucsr0a, RXC0);
    if ucsr0a & Mask(RXC0) == 0 then NO_DATA else udr0
  }

  /** The `i`-th byte `uart_getchar` returns: past the received bytes the
      receiver is empty and the sentinel comes back. */
  function Received(input: seq<uint8>, i: nat): uint8 {
    if i < |input| then input[i] else NO_DATA
  }

  /** The test on `incoming`, a (signed) `char`: `incoming < 1` holds for 0
      and every byte from 0x80 up, the sentinel 0xFF included. */
  predicate EndsLine(b: uint8) {
    AsChar(b) < 1 || b == CR || b == LF
  }

  /** The number of bytes a line reader with room for `limit` bytes stores:
      the received bytes before the first line-ending one, at most `limit`. */
  function LineLength(input: seq<uint8>, limit: nat): (n: nat)
    decreases limit
    ensures n <= limit && n <= |input|
    ensures forall j | 0 <= j < n :: !EndsLine(input[j])
    ensures n < limit ==> EndsLine(Received(input, n))
  {
    if limit == 0 || EndsLine(Received(input, 0)) then 0
    else 1 + LineLength(input[1..], limit - 1)
  }

  /** Those three facts pin the length down: no other count satisfies them. */
  lemma {:induction false} LineLengthUnique(input: seq<uint8>, limit: nat, n: nat)
    requires n <= limit && n <= |input|
    requires forall j | 0 <= j < n :: !EndsLine(input[j])
    requires n < limit ==> EndsLine(Received(input, n))
    decreases limit
    ensures n == LineLength(input, limit)
  {
    if n > 0 {
      assert !EndsLine(Received(input, 0));
      assert forall j | 0 <= j < n - 1 :: input[1..][j] == input[j + 1];
      assert Received(input[1..], n - 1) == Received(input, n);
      LineLengthUnique(input[1..], limit - 1, n - 1);
    }
  }

  /** `uart_getline(command_buf, size)` with `size == |buf|`: the buffer
      afterwards and the number of bytes stored. The drain loop after a
      line-ending byte and the 500 us delay leave the buffer alone. */
  method UartGetline(buf: seq<uint8>, input: seq<uint8>) returns (line: seq<uint8>, count: nat)
    requires |buf| >= 1
    ensures |line| == |buf|
    ensures count <= |buf| - 1 && count <= |input|
    ensures count == LineLength(input, |buf| - 1)
    // the stored bytes are the received ones, in order, none of them line-ending
    ensures line[..count] == input[..count]
    ensures forall j | 0 <= j < count :: !EndsLine(line[j])
    // it stops at the first line-ending byte, which is not stored, or when full
    ensures count < |buf| - 1 ==> EndsLine(Received(input, count))
    // the terminator, and nothing written past it
    ensures line[count] == 0
    ensures line[count + 1..] == buf[count + 1..]
  {
    line := buf;
    count := 0;
    while count < |buf| - 1
      invariant count <= |buf| - 1 && count <= |input|
      invariant |line| == |buf|
      invariant line[..count] == input[..count]
      invariant forall j | 0 <= j < count :: !EndsLine(input[j])
      invariant line[count..] == buf[count..]
    {
      var incoming := Received(input, count);
      if EndsLine(incoming) {
        break;
      }
      line := line[count := incoming];
      count := count + 1;
    }
    line := line[count := 0];
    LineLengthUnique(input, |buf| - 1, count);
  }

  /** `uart_putstr(str)`: the bytes handed to `uart_putchar`. The loop needs a
      byte that is not positive as a `char` (the string's terminator) to
      stop inside `str`; since WIN_ENDL is defined, CR LF follows. */
  method UartPutstr(str: seq<uint8>) returns (out: seq<uint8>)
    requires exists i | 0 <= i < |str| :: AsChar(str[i]) <= 0
    ensures |out| >= 2 && out[|out| - 2..] == [CR, LF]
    ensures |out| - 2 < |str|
    ensures out[..|out| - 2] == str[..|out| - 2]
    ensures forall j | 0 <= j < |out| - 2 :: AsChar(str[j]) > 0
    ensures AsChar(str[|out| - 2]) <= 0
  {
    var k := 0;
    while AsChar(str[k]) > 0
      invariant 0 <= k < |str|
      invariant forall j | 0 <= j < k :: AsChar(str[j]) > 0
      invariant exists i | k <= i < |str| :: AsChar(str[i]) <= 0
      decreases |str| - k
    {
      k := k + 1;
    }
    out := str[..k] + [CR, LF];
  }

  /** Size of `uart_echo`'s buffer. */
  const ECHO_BUFFER_SIZE: nat := 255

  /** `uart_echo()`: a zeroed 255-byte buffer filled by `uart_getline` and
      written back by `uart_putstr`. The output is the received line, at most
      254 bytes, followed by CR LF. */
  method UartEcho(received: seq<uint8>) returns (out: seq<uint8>)
    ensures var n := LineLength(received, ECHO_BUFFER_SIZE - 1);
            out == received[..n] + [CR, LF]
    ensures |out| <= ECHO_BUFFER_SIZE + 1
  {
    var zeroed := seq(ECHO_BUFFER_SIZE, _ => 0);
    var line, count := UartGetline(zeroed, received);
    assert AsChar(line[count]) <= 0;
    out := UartPutstr(line);
    assert line[..count] == received[..count];
  }
}
