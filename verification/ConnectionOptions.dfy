/** Connection options. InitOptions repairs what the caller left out, and with it establishes
    the bounds that the retry loops and the buffer growth rely on. */
module ConnectionOptions {
  import opened Bytes

  const KB := 1024
  const MB := 1024 * 1024

  const DEFAULT_BUF_MIN := 8 * KB
  const DEFAULT_BUF_MAX := 100 * MB

  /** Incrementing a Go int. */
  function Incremented(a: int): int {
    if a == MAX_INT64 then MIN_INT64 else a + 1
  }

  /** The smallest and the largest length a buffer may have, repaired. */
  function BufBounds(min: int, max: int): (int, int) {
    var min' := if min <= 0 then DEFAULT_BUF_MIN else min;
    var max' := if max <= 0 then DEFAULT_BUF_MAX else max;
    if min' > max' then (DEFAULT_BUF_MIN, DEFAULT_BUF_MAX) else (min', max')
  }

  /** The repaired bounds are usable, and bounds that are usable already are kept. */
  lemma BufBoundsAreUsable(min: int, max: int)
    ensures var (lo, hi) := BufBounds(min, max); 0 < lo <= hi
    ensures BufBounds(min, max) == (min, max) <==> 0 < min <= max
    ensures min <= 0 && max <= 0 ==> BufBounds(min, max) == (8192, 104857600)
    ensures 0 < max < min ==> BufBounds(min, max) == (8192, 104857600)
    ensures min <= 0 < max ==> BufBounds(min, max) == if max >= 8192 then (8192, max) else (8192, 104857600)
    ensures max <= 0 < min ==> BufBounds(min, max) == if min <= 104857600 then (min, 104857600) else (8192, 104857600)
  {
  }

  /** The settings that a connection works with; they never change afterwards. */
  datatype Limits = Limits(
    retryAmount: int,
    sendBufMinLen: int,
    sendBufMaxLen: int,
    receiveBufMinLen: int,
    receiveBufMaxLen: int)
  {
    /** retryAmount counts the retries and the first try. */
    ghost predicate Usable() {
      && retryAmount >= 2
      && 0 < sendBufMinLen <= sendBufMaxLen
      && 0 < receiveBufMinLen <= receiveBufMaxLen
    }
  }

  class Options {
    var protoVersion: int
    var retryAmount: int
    var keepAliveIdle: int
    var keepAliveInterval: int
    var keepAliveCheckAmount: int
    var sendBufMinLen: int
    var sendBufMaxLen: int
    var receiveBufMinLen: int
    var receiveBufMaxLen: int
    var pollingTimeout: int

    function GetLimits(): Limits
      reads this
    {
      Limits(retryAmount, sendBufMinLen, sendBufMaxLen, receiveBufMinLen, receiveBufMaxLen)
    }

    /** The guarantee fails for exactly one setting: adding the first try to the largest int
        wraps around. */
    method InitOptions()
      requires MIN_INT64 <= retryAmount <= MAX_INT64
      modifies this
      ensures GetLimits().Usable() <==> old(retryAmount) < MAX_INT64
      ensures retryAmount == Incremented(if old(retryAmount) <= 0 then 3 else old(retryAmount))
      ensures old(retryAmount) <= 0 ==> retryAmount == 4
      ensures 0 < old(retryAmount) < MAX_INT64 ==> retryAmount == old(retryAmount) + 1
      ensures (sendBufMinLen, sendBufMaxLen) == BufBounds(old(sendBufMinLen), old(sendBufMaxLen))
      ensures (receiveBufMinLen, receiveBufMaxLen) == BufBounds(old(receiveBufMinLen), old(receiveBufMaxLen))
      ensures protoVersion == if old(protoVersion) == 2 then 2 else 3
      ensures keepAliveIdle == if old(keepAliveIdle) <= 0 then 300 else old(keepAliveIdle)
      ensures keepAliveInterval == if old(keepAliveInterval) <= 0 then 60 else old(keepAliveInterval)
      ensures keepAliveCheckAmount == if old(keepAliveCheckAmount) <= 0 then 5 else old(keepAliveCheckAmount)
      ensures pollingTimeout == if old(pollingTimeout) <= 0 then 50_000_000 else old(pollingTimeout)
    {
      if protoVersion < 2 || protoVersion > 3 {
        protoVersion := 3;
      }
      if retryAmount <= 0 {
        retryAmount := 3;
      }
      retryAmount := Incremented(retryAmount);
      InitKeepAlive();
      InitSendBufBounds();
      InitReceiveBufBounds();

      if pollingTimeout <= 0 {
        pollingTimeout := 50_000_000;
      }
    }

    method InitKeepAlive()
      modifies this`keepAliveIdle, this`keepAliveInterval, this`keepAliveCheckAmount
      ensures keepAliveIdle == if old(keepAliveIdle) <= 0 then 300 else old(keepAliveIdle)
      ensures keepAliveInterval == if old(keepAliveInterval) <= 0 then 60 else old(keepAliveInterval)
      ensures keepAliveCheckAmount == if old(keepAliveCheckAmount) <= 0 then 5 else old(keepAliveCheckAmount)
    {
      if keepAliveIdle <= 0 {
        keepAliveIdle := 300;
      }
      if keepAliveInterval <= 0 {
        keepAliveInterval := 60;
      }
      if keepAliveCheckAmount <= 0 {
        keepAliveCheckAmount := 5;
      }
    }

    method InitSendBufBounds()
      modifies this`sendBufMinLen, this`sendBufMaxLen
      ensures 0 < sendBufMinLen <= sendBufMaxLen
      ensures (sendBufMinLen, sendBufMaxLen) == BufBounds(old(sendBufMinLen), old(sendBufMaxLen))
    {
      if sendBufMinLen <= 0 {
        sendBufMinLen := DEFAULT_BUF_MIN;
      }
      if sendBufMaxLen <= 0 {
        sendBufMaxLen := DEFAULT_BUF_MAX;
      }
      if sendBufMinLen > sendBufMaxLen {
        sendBufMinLen := DEFAULT_BUF_MIN;
        sendBufMaxLen := DEFAULT_BUF_MAX;
      }
    }

    method InitReceiveBufBounds()
      modifies this`receiveBufMinLen, this`receiveBufMaxLen
      ensures 0 < receiveBufMinLen <= receiveBufMaxLen
      ensures (receiveBufMinLen, receiveBufMaxLen) == BufBounds(old(receiveBufMinLen), old(receiveBufMaxLen))
    {
      if receiveBufMinLen <= 0 {
        receiveBufMinLen := DEFAULT_BUF_MIN;
      }
      if receiveBufMaxLen <= 0 {
        receiveBufMaxLen := DEFAULT_BUF_MAX;
      }
      if receiveBufMinLen > receiveBufMaxLen {
        receiveBufMinLen := DEFAULT_BUF_MIN;
        receiveBufMaxLen := DEFAULT_BUF_MAX;
      }
    }
  }
}
