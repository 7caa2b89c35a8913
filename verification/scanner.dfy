/** The block scanner that main.cpp inlines four times, once per block kind.

    From the byte after an opener it copies bytes until the FIRST occurrence of
    the close byte. It does not track nesting: `(a(b)c)` yields the body `a(b`.
    Where the C++ loop would run past the end of the code (no close byte at
    all), the scanner reports that no block was found. */
module Scanner {

  datatype Option<T> = None | Some(value: T)

  /** A scanned block: its body, and the index of the close byte that ends it
      (the byte main.cpp leaves `i` on). */
  datatype Block = Block(body: seq<char>, close: nat)

  /** `close` is the first position at or after `start` holding `closeByte`. */
  ghost predicate FirstAt(code: seq<char>, start: nat, closeByte: char, close: nat) {
    && start <= close < |code|
    && code[close] == closeByte
    && forall k :: start <= k < close ==> code[k] != closeByte
  }

  /** Copy `code[start..]` up to the first `closeByte`. */
  function ScanBlock(code: seq<char>, start: nat, closeByte: char): (r: Option<Block>)
    decreases |code| - start
    ensures r.Some? ==> FirstAt(code, start, closeByte, r.value.close)
    ensures r.Some? ==> r.value.body == code[start..r.value.close]
    ensures r.Some? ==> closeByte !in r.value.body
    ensures r.None? <==> forall k :: start <= k < |code| ==> code[k] != closeByte
  {
    if start >= |code| then None
    else if code[start] == closeByte then Some(Block([], start))
    else match ScanBlock(code, start + 1, closeByte)
      case None => None
      case Some(b) => Some(Block([code[start]] + b.body, b.close))
  }

  /** The first close byte is unique, so the scanner's answer is determined by
      it: wherever the first `closeByte` after `start` is, that is where the
      block ends. */
  lemma ScanFindsFirst(code: seq<char>, start: nat, closeByte: char, close: nat)
    requires FirstAt(code, start, closeByte, close)
    ensures ScanBlock(code, start, closeByte) == Some(Block(code[start..close], close))
  {
  }

  /** A block written out delimited: opener, a body free of the close byte,
      the close byte, and anything after it. Scanning from just after the
      opener returns exactly that body and stops on that close byte. */
  lemma ScanDelimited(code: seq<char>, body: seq<char>, closeByte: char)
    requires 2 + |body| <= |code|
    requires code[1..1 + |body|] == body && code[1 + |body|] == closeByte
    requires closeByte !in body
    ensures ScanBlock(code, 1, closeByte) == Some(Block(body, 1 + |body|))
  {
    forall k | 1 <= k < 1 + |body|
      ensures code[k] != closeByte
    {
      assert code[k] == body[k - 1];
    }
    ScanFindsFirst(code, 1, closeByte, 1 + |body|);
  }

  /** The scanning loop as main.cpp writes it: push bytes onto the new body
      until the close byte is seen. `found` is false where the C++ loop would
      read past the end of the code. */
  method CopyBlock(code: seq<char>, start: nat, closeByte: char)
    returns (found: bool, body: seq<char>, close: nat)
    ensures found <==> ScanBlock(code, start, closeByte).Some?
    ensures found ==> ScanBlock(code, start, closeByte) == Some(Block(body, close))
  {
    found, body, close := false, [], start;
    if start >= |code| {
      return;
    }
    var i := start;
    while i < |code| && code[i] != closeByte
      invariant start <= i <= |code|
      invariant body == code[start..i]
      invariant forall k :: start <= k < i ==> code[k] != closeByte
      decreases |code| - i
    {
      body := body + [code[i]];
      i := i + 1;
    }
    if i < |code| {
      found, close := true, i;
      ScanFindsFirst(code, start, closeByte, i);
    }
  }
}
