/** `last_publish_result`: the text of a publish reply after its leading
    number, read from the reply buffer as a C string with `strtol`. */
module PublishResult {
  import opened Types

  /** `isspace` in the C locale: space, \t, \n, \v, \f, \r. */
  predicate IsSpace(c: char) {
    c == ' ' || '\t' <= c <= '\r'
  }

  predicate IsDigit(c: char) {
    '0' <= c <= '9'
  }

  predicate IsSign(c: char) {
    c == '+' || c == '-'
  }

  /** The C string a buffer holds: its characters up to the first NUL. */
  function CString(buf: seq<char>): (s: seq<char>)
    ensures |s| <= |buf| && s == buf[..|s|]
    ensures forall k :: 0 <= k < |s| ==> s[k] != '\0'
    ensures |s| < |buf| ==> buf[|s|] == '\0'
  {
    if buf == [] || buf[0] == '\0' then [] else [buf[0]] + CString(buf[1..])
  }

  /** A buffer without NUL is its own C string. */
  lemma CStringOfNulFree(buf: seq<char>)
    requires forall k :: 0 <= k < |buf| ==> buf[k] != '\0'
    ensures CString(buf) == buf
  {
  }

  /** The C string of a buffer is the one NUL-free prefix that ends at a NUL
      or at the end of the buffer. */
  lemma {:induction false} CStringUnique(buf: seq<char>, t: seq<char>)
    requires |t| <= |buf| && buf[..|t|] == t
    requires forall k :: 0 <= k < |t| ==> t[k] != '\0'
    requires |t| < |buf| ==> buf[|t|] == '\0'
    ensures CString(buf) == t
  {
    if t != [] {
      assert buf[0] == t[0];
      assert buf[1..][..|t| - 1] == t[1..];
      CStringUnique(buf[1..], t[1..]);
    }
  }

  /** Dropping characters in front of the NUL drops them from the C string. */
  lemma {:induction false} CStringSuffix(buf: seq<char>, start: nat)
    requires start <= |buf|
    ensures start <= |CString(buf)| ==> CString(buf[start..]) == CString(buf)[start..]
  {
    if 0 < start <= |CString(buf)| {
      assert CString(buf) == [buf[0]] + CString(buf[1..]);
      CStringSuffix(buf[1..], start - 1);
      assert buf[1..][start - 1..] == buf[start..];
    }
  }

  /** The end of the run of white space that starts at `i`. */
  function SkipSpace(s: seq<char>, i: nat): (j: nat)
    requires i <= |s|
    ensures i <= j <= |s|
    ensures forall k :: i <= k < j ==> IsSpace(s[k])
    ensures j < |s| ==> !IsSpace(s[j])
    decreases |s| - i
  {
    if i < |s| && IsSpace(s[i]) then SkipSpace(s, i + 1) else i
  }

  /** The end of the run of decimal digits that starts at `i`. */
  function SkipDigits(s: seq<char>, i: nat): (j: nat)
    requires i <= |s|
    ensures i <= j <= |s|
    ensures forall k :: i <= k < j ==> IsDigit(s[k])
    ensures j < |s| ==> !IsDigit(s[j])
    decreases |s| - i
  {
    if i < |s| && IsDigit(s[i]) then SkipDigits(s, i + 1) else i
  }

  /** A run of digits ended by a non-digit is what SkipDigits skips. */
  lemma DigitRun(s: seq<char>, i: nat, j: nat)
    requires i <= j < |s|
    requires forall k :: i <= k < j ==> IsDigit(s[k])
    requires !IsDigit(s[j])
    ensures SkipDigits(s, i) == j
  {
  }

  /** Where `strtol(s + i, &end, 10)` leaves `end`: after white space, an
      optional sign and at least one digit; at `i` itself when no digit follows. */
  function StrtolEnd(s: seq<char>, i: nat): (e: nat)
    requires i <= |s|
    ensures i <= e <= |s|
    ensures var j := SkipSpace(s, i);
            var k := if j < |s| && IsSign(s[j]) then j + 1 else j;
            (e == i <==> k == |s| || !IsDigit(s[k]))
            && (e > i ==> k < e && (forall m :: k <= m < e ==> IsDigit(s[m])) && (e == |s| || !IsDigit(s[e])))
  {
    var j := SkipSpace(s, i);
    var k := if j < |s| && IsSign(s[j]) then j + 1 else j;
    var d := SkipDigits(s, k);
    if d == k then i else d
  }

  /** What last_publish_result returns, for the transaction tag and the
      reply buffer (`None` when a dynamic buffer has been released): `""`
      unless the tag is Publish and the reply is not empty; otherwise the
      C string after its first character, the number there and one more
      character. When the number runs to the end of the reply there is no
      such character and the result is `""` (see AsWrittenPublishResult). */
  function LastPublishResult(t: Trans, buf: Option<seq<char>>): (r: string)
    ensures t != Publish || buf.None? ==> r == ""
    ensures buf.Some? && CString(buf.value) == [] ==> r == ""
    ensures buf.Some? && r != "" ==>
              var s := CString(buf.value);
              |r| + 2 <= |s| && r == s[|s| - |r|..]
  {
    if buf.None? || t != Publish then "" else PublishTail(CString(buf.value))
  }

  /** What follows the first character, the number there and one more
      character of the C string `s`; `""` for an empty `s`. */
  function PublishTail(s: string): (r: string)
    ensures s == [] ==> r == ""
    ensures r != "" ==> |r| + 2 <= |s| && r == s[|s| - |r|..]
  {
    if s == [] then ""
    else
      var e := StrtolEnd(s, 1);
      if e + 1 <= |s| then s[e + 1..] else ""
  }

  /** Only the C string of the buffer matters: bytes after the NUL are never read. */
  lemma {:induction false} LastPublishResultReadsCString(t: Trans, buf: seq<char>)
    ensures LastPublishResult(t, Some(buf)) == LastPublishResult(t, Some(CString(buf)))
  {
    CStringOfNulFree(CString(buf));
  }

  /** A reply made of one character, a number, one separator and a rest
      yields the rest. */
  lemma {:induction false} SkipsNumberAndSeparator(first: char, digits: seq<char>, sep: char, rest: seq<char>)
    requires first != '\0' && sep != '\0' && !IsDigit(sep)
    requires |digits| > 0 && forall k :: 0 <= k < |digits| ==> IsDigit(digits[k])
    requires forall k :: 0 <= k < |rest| ==> rest[k] != '\0'
    ensures LastPublishResult(Publish, Some([first] + digits + [sep] + rest)) == rest
  {
    var s := [first] + digits + [sep] + rest;
    forall k | 0 <= k < |s| ensures s[k] != '\0' {
      if 1 <= k <= |digits| { assert s[k] == digits[k - 1]; }
    }
    CStringOfNulFree(s);
    assert s[1] == digits[0];
    assert !IsSign(s[1]);
    assert SkipSpace(s, 1) == 1;
    forall k | 1 <= k < 1 + |digits| ensures IsDigit(s[k]) { assert s[k] == digits[k - 1]; }
    assert s[1 + |digits|] == sep;
    DigitRun(s, 1, 1 + |digits|);
    assert s[2 + |digits|..] == rest;
  }

  /** The usual publish reply `[1,"Sent","14178940?"]`: the result is the
      text after `[1,`, not the time token alone. */
  lemma PublishReplyExample()
    ensures LastPublishResult(Publish, Some("[1,\"Sent\",\"14178940?\"]")) == "\"Sent\",\"14178940?\"]"
  {
    var rest := "\"Sent\",\"14178940?\"]";
    assert "[1,\"Sent\",\"14178940?\"]" == ['['] + "1" + [','] + rest;
    SkipsNumberAndSeparator('[', "1", ',', rest);
  }

  // ------------------------------------------------------ source as written

  /** The source as written returns the C string at `end + 1`, one past
      where strtol stopped, without checking that `end` is not the
      terminating NUL. Over the whole buffer `buf` this yields the
      characters from that position up to the next NUL, or `None` when the
      position lies outside the buffer or no NUL follows it inside the
      buffer: then the source reads memory it does not own. */
  function AsWrittenPublishResult(buf: seq<char>): (r: Option<string>)
    requires CString(buf) != []
    ensures var start := StrtolEnd(CString(buf), 1) + 1;
            r.None? <==> start >= |buf| || '\0' !in buf[start..]
    ensures var s := CString(buf);
            StrtolEnd(s, 1) < |s| < |buf| ==> r == Some(LastPublishResult(Publish, Some(buf)))
  {
    var s := CString(buf);
    var start := StrtolEnd(s, 1) + 1;
    NulEndsTail(buf, start);
    if start < |buf| && '\0' in buf[start..] then
      CStringSuffix(buf, start);
      Some(CString(buf[start..]))
    else None
  }

  /** From a position at or before the C string's end, the rest of a
      buffer that holds the NUL still holds it. */
  lemma NulEndsTail(buf: seq<char>, start: nat)
    ensures start <= |CString(buf)| < |buf| ==> '\0' in buf[start..]
  {
    if start <= |CString(buf)| < |buf| {
      assert buf[start..][|CString(buf)| - start] == '\0';
    }
  }

  /** A publish reply whose number runs to its end, `[1`, in a fixed
      buffer whose earlier contents were `[1,stale`, so that it holds
      `[1\0stale\0`: the source reads past the terminating NUL and returns
      `stale`, the corrected function `""`. */
  lemma AsWrittenReadsPastTerminator()
    ensures CString("[1\0stale\0") == "[1"
    ensures StrtolEnd("[1", 1) == 2
    ensures AsWrittenPublishResult("[1\0stale\0") == Some("stale")
    ensures LastPublishResult(Publish, Some("[1\0stale\0")) == ""
  {
    var buf := "[1\0stale\0";
    assert buf[..9] == buf;
    assert SkipSpace("[1", 1) == 1 && SkipDigits("[1", 1) == 2;
    AsWrittenAfterShorterReply(buf);
  }

  /** A buffer holding a reply `a` whose number runs to its end, its NUL,
      and then the C string `b` left by an earlier, longer reply: the source
      as written returns `b`, the corrected function `""`. */
  lemma {:induction false} AsWrittenReadsStaleTail(buf: seq<char>, a: seq<char>, b: seq<char>)
    requires |a| + |b| + 2 <= |buf| && buf[..|a| + |b| + 2] == a + ['\0'] + b + ['\0']
    requires a != [] && forall k :: 0 <= k < |a| ==> a[k] != '\0'
    requires forall k :: 0 <= k < |b| ==> b[k] != '\0'
    requires StrtolEnd(a, 1) == |a|
    ensures CString(buf) == a
    ensures AsWrittenPublishResult(buf) == Some(b)
    ensures LastPublishResult(Publish, Some(buf)) == ""
  {
    TwoCStrings(buf, a, b);
    var tail := buf[|a| + 1..];
    assert tail[|b|] == buf[..|a| + |b| + 2][|a| + 1 + |b|] == '\0';
    assert StrtolEnd(CString(buf), 1) + 1 == |a| + 1 < |buf| && '\0' in tail;
    assert AsWrittenPublishResult(buf) == Some(CString(tail));
    LastPublishResultReadsCString(Publish, buf);
  }

  /** The buffer `[1\0stale\0...`, whatever follows: the source as written
      returns `stale`, the corrected function `""`. */
  lemma {:induction false} AsWrittenAfterShorterReply(buf: seq<char>)
    requires |buf| >= 9 && buf[..9] == "[1\0stale\0"
    ensures CString(buf) == "[1"
    ensures AsWrittenPublishResult(buf) == Some("stale")
    ensures LastPublishResult(Publish, Some(buf)) == ""
  {
    assert "[1\0stale\0" == "[1" + ['\0'] + "stale" + ['\0'];
    assert SkipSpace("[1", 1) == 1 && SkipDigits("[1", 1) == 2;
    AsWrittenReadsStaleTail(buf, "[1", "stale");
  }

  /** A buffer that starts with the C string `a`, its NUL, the C string
      `b` and its NUL holds `a`, and `b` right after the first NUL. */
  lemma {:induction false} TwoCStrings(buf: seq<char>, a: seq<char>, b: seq<char>)
    requires |a| + |b| + 2 <= |buf| && buf[..|a| + |b| + 2] == a + ['\0'] + b + ['\0']
    requires forall k :: 0 <= k < |a| ==> a[k] != '\0'
    requires forall k :: 0 <= k < |b| ==> b[k] != '\0'
    ensures CString(buf) == a && CString(buf[|a| + 1..]) == b
  {
    var head := buf[..|a| + |b| + 2];
    assert buf[..|a|] == head[..|a|] == a && buf[|a|] == head[|a|] == '\0';
    CStringUnique(buf, a);
    var rest := buf[|a| + 1..];
    assert rest[..|b|] == head[|a| + 1..|a| + 1 + |b|] == b;
    assert rest[|b|] == head[|a| + 1 + |b|] == '\0';
    CStringUnique(rest, b);
  }

  /** A publish reply `[1` in a buffer whose remaining bytes `abc` hold
      no NUL: the C string at `end + 1` runs off the end of the buffer, so
      the source reads memory it does not own; the corrected function
      returns `""`. */
  lemma AsWrittenReadsPastUnterminatedTail()
    ensures CString("[1\0abc") == "[1"
    ensures AsWrittenPublishResult("[1\0abc") == None
    ensures LastPublishResult(Publish, Some("[1\0abc")) == ""
  {
    var buf := "[1\0abc";
    assert CString(buf) == [buf[0]] + CString(buf[1..]);
    assert CString(buf[1..]) == [buf[1]] + CString(buf[2..]);
    assert buf[1..][1..] == buf[2..];
    assert CString(buf) == "[1";
    assert SkipSpace("[1", 1) == 1;
    assert SkipDigits("[1", 1) == 2;
    assert buf[3..] == "abc";
  }

  /** A publish reply `[1` in a dynamic buffer, which holds the reply and
      its NUL and nothing more: the source reads one byte past the buffer,
      the corrected function returns `""`. */
  lemma AsWrittenReadsPastDynamicBuffer()
    ensures CString("[1\0") == "[1"
    ensures AsWrittenPublishResult("[1\0") == None
    ensures LastPublishResult(Publish, Some("[1\0")) == ""
  {
    var buf := "[1\0";
    assert CString(buf) == [buf[0]] + CString(buf[1..]);
    assert CString(buf[1..]) == [buf[1]] + CString(buf[2..]);
    assert buf[1..][1..] == buf[2..];
    assert CString(buf) == "[1";
    assert SkipSpace("[1", 1) == 1;
    assert SkipDigits("[1", 1) == 2;
  }
}
