/** The formatter of src/containers/containers_string.c. */
module Format {
  import opened Words
  import opened Decimals
  import opened Lists

  /** What a caller passes for a directive: a pointer to characters, or a number. */
  datatype Arg = StrArg(mem: string) | UintArg(val: nat)

  /** What a format does from some point on: it asks for an argument that was not passed, or it writes
      `text` and then stops the kernel or goes on. */
  datatype Effect = Wrong | Panic(text: string) | Text(text: string)

  function Then(t: string, e: Effect): Effect {
    match e
    case Wrong => Wrong
    case Panic(u) => Panic(t + u)
    case Text(u) => Text(t + u)
  }

  /** The characters up to the first NUL. */
  function StrEnd(mem: string, i: nat): (n: nat)
    requires i <= |mem|
    ensures i <= n <= |mem| && (n < |mem| ==> mem[n] == '\0')
    ensures forall j :: i <= j < n ==> mem[j] != '\0'
    decreases |mem| - i
  {
    if i == |mem| || mem[i] == '\0' then i else StrEnd(mem, i + 1)
  }

  predicate Terminated(mem: string) {
    StrEnd(mem, 0) < |mem|
  }

  function CStr(mem: string): string {
    mem[..StrEnd(mem, 0)]
  }

  /** The first `n` characters, or those up to the first NUL. */
  function CutLen(mem: string, n: nat): (k: nat)
    ensures k <= n && k <= |mem| && (k == n || k == |mem| || mem[k] == '\0')
    ensures forall j :: 0 <= j < k ==> mem[j] != '\0'
  {
    if n < StrEnd(mem, 0) then n else StrEnd(mem, 0)
  }

  /** A format of `n` characters, NUL behind them. */
  predicate IsFormat(format: string, n: nat) {
    n < |format| && format[n] == '\0'
  }

  /** As many of them as are left before the end of the buffer. */
  function Left(ptr: nat, bufLen: nat, s: string): string {
    if ptr >= bufLen then "" else if bufLen - ptr < |s| then s[..bufLen - ptr] else s
  }

  /** A string or number, which is checked as a whole, and a cut string, which is checked byte by byte. */
  function Whole(s: string, ptr: nat, bufLen: nat, rest: Effect): Effect {
    if Passes(ptr, bufLen, |s|) then Then(s, rest) else Panic("")
  }

  function Bytewise(s: string, ptr: nat, bufLen: nat, rest: Effect): Effect {
    if s == "" || ptr + |s| <= bufLen then Then(s, rest) else Panic(Left(ptr, bufLen, s))
  }

  /** What the loop of `str_buf_marshal_format_v` does from character `i` on, with the arguments from
      number `j` on, the next byte being `ptr`. A literal is written wherever it comes to stand. */
  ghost function Run(format: string, n: nat, i: nat, args: seq<Arg>, j: nat, ptr: nat, bufLen: nat): Effect
    requires IsFormat(format, n)
    decreases n - i
  {
    if i >= n then if ptr <= bufLen then Text("") else Panic("")
    else if format[i] != '%' then Then([format[i]], Run(format, n, i + 1, args, j, ptr + 1, bufLen))
    else if format[i + 1] == '%' then Then("%", Run(format, n, i + 2, args, j, ptr + 1, bufLen))
    else if format[i + 1] == 's' then
      if j >= |args| || !args[j].StrArg? || !Terminated(args[j].mem) then Wrong
      else
        var s := CStr(args[j].mem);
        Whole(s, ptr, bufLen, Run(format, n, i + 2, args, j + 1, ptr + |s|, bufLen))
    else if format[i + 1] == 'l' then
      if format[i + 2] != 'u' then Panic("")
      else if j >= |args| || !args[j].UintArg? then Wrong
      else
        var s := Decimal(args[j].val);
        Whole(s, ptr, bufLen, Run(format, n, i + 3, args, j + 1, ptr + |s|, bufLen))
    else if format[i + 1] == '.' then
      var k := DigitRun(format, i + 2, n);
      if k == 0 then Panic("")
      else if j >= |args| || !args[j].StrArg? then Wrong
      else
        var most, mem := Value(format, i + 2, k) % WORD, args[j].mem;
        if !Terminated(mem) && |mem| < most then Wrong
        else
          var s := mem[..CutLen(mem, most)];
          Bytewise(s, ptr, bufLen, Run(format, n, i + 3 + k, args, j + 1, ptr + |s|, bufLen))
    else Panic("")
  }

  /** The whole call: the source first asserts that the offset lies in the buffer. */
  ghost function Formatted(format: string, n: nat, args: seq<Arg>, off: nat, bufLen: nat): Effect
    requires IsFormat(format, n)
  {
    if off < bufLen then Run(format, n, 0, args, 0, off, bufLen) else Panic("")
  }

  lemma ThenThen(s: string, t: string, e: Effect)
    ensures Then(s, Then(t, e)) == Then(s + t, e)
  {
    if !e.Wrong? {
      assert s + (t + e.text) == s + t + e.text;
    }
  }

  /** A format that ends without stopping the kernel has stayed in the buffer: literals that have not are
      found out at the end, if not before. */
  lemma {:induction false} EndsInside(format: string, n: nat, i: nat, args: seq<Arg>, j: nat, ptr: nat, bufLen: nat)
    requires IsFormat(format, n)
    ensures var e := Run(format, n, i, args, j, ptr, bufLen); e.Text? ==> ptr + |e.text| <= bufLen
    decreases n - i
  {
    hide DigitRun, Value, Decimal, StrEnd, CutLen, Left;
    if i < n {
      if format[i] != '%' {
        EndsInside(format, n, i + 1, args, j, ptr + 1, bufLen);
      } else if format[i + 1] == '%' {
        EndsInside(format, n, i + 2, args, j, ptr + 1, bufLen);
      } else if j < |args| && args[j].StrArg? && format[i + 1] == 's' {
        EndsInside(format, n, i + 2, args, j + 1, ptr + |CStr(args[j].mem)|, bufLen);
      } else if j < |args| && args[j].UintArg? && format[i + 1] == 'l' {
        EndsInside(format, n, i + 3, args, j + 1, ptr + |Decimal(args[j].val)|, bufLen);
      } else if j < |args| && args[j].StrArg? && format[i + 1] == '.' && DigitRun(format, i + 2, n) > 0 {
        var k := DigitRun(format, i + 2, n);
        var m := CutLen(args[j].mem, Value(format, i + 2, k) % WORD);
        EndsInside(format, n, i + 3 + k, args, j + 1, ptr + m, bufLen);
      }
    }
  }

  // ---------------------------------------------------------------------------------------------
  // The loops
  // ---------------------------------------------------------------------------------------------

  /** `str_len` */
  method StrLen(mem: string) returns (len: nat)
    requires Terminated(mem)
    ensures len == StrEnd(mem, 0)
  {
    len := 0;
    while mem[len] != '\0'
      invariant len < |mem| && StrEnd(mem, len) == StrEnd(mem, 0)
      decreases |mem| - len
    {
      len := len + 1;
    }
  }

  /** `str_buf_marshal_str`: the string at `off`, and nothing else. It stops the kernel unless the check
      passes; past the buffer's end the difference wraps, and the string lands behind the buffer. */
  method MarshalStr(buf: array<char>, off: nat, bufLen: nat, str: string, n: nat) returns (ok: bool, count: nat)
    requires off < WORD && bufLen < WORD && n <= |str| && (Passes(off, bufLen, n) ==> off + n <= buf.Length)
    modifies buf
    ensures count == n && (ok <==> Passes(off, bufLen, n))
    ensures ok ==> buf[..] == Written(old(buf[..]), off, str[..n]) && (off + n <= bufLen <==> off <= bufLen)
    ensures !ok ==> buf[..] == old(buf[..])
  {
    if Sub(bufLen, off) <= n {
      return false, n;
    }
    PassesInside(off, bufLen, n);
    var i := 0;
    while i < n
      invariant 0 <= i <= n
      invariant forall k :: off <= k < off + i ==> buf[k] == str[k - off]
      invariant forall k :: 0 <= k < buf.Length && !(off <= k < off + i) ==> buf[k] == old(buf[k])
    {
      buf[off + i] := str[i];
      i := i + 1;
    }
    return true, n;
  }

  /** The loop of the `%.Ns` directive, which checks every byte; it stops the kernel at the first that does
      not fit, with those before it written. */
  method MarshalCut(buf: array<char>, off: nat, bufLen: nat, mem: string, most: nat) returns (ok: bool, count: nat)
    requires bufLen <= buf.Length && (Terminated(mem) || most <= |mem|) && (off > bufLen ==> off <= buf.Length)
    modifies buf
    ensures count <= most && count <= |mem| && off + count <= buf.Length && buf[..] == Written(old(buf[..]), off, mem[..count])
    ensures forall j :: 0 <= j < count ==> mem[j] != '\0'
    ensures ok <==> count == most || (count < |mem| && mem[count] == '\0')
    ensures (count > 0 ==> off + count <= bufLen) && (!ok ==> off + count >= bufLen)
  {
    count := 0;
    while count < most
      invariant 0 <= count <= most && count <= |mem| && (count > 0 ==> off + count <= bufLen)
      invariant forall j :: 0 <= j < count ==> mem[j] != '\0'
      invariant forall k :: off <= k < off + count ==> buf[k] == mem[k - off]
      invariant forall k :: 0 <= k < buf.Length && !(off <= k < off + count) ==> buf[k] == old(buf[k])
    {
      if mem[count] == '\0' {
        break;
      }
      if off + count >= bufLen {
        return false, count;
      }
      buf[off + count] := mem[count];
      count := count + 1;
    }
    ok := true;
  }

  /** That is the cut, or as much of it as fits. */
  lemma CutDone(mem: string, most: nat, off: nat, bufLen: nat, ok: bool, count: nat)
    requires count <= most && count <= |mem| && forall j :: 0 <= j < count ==> mem[j] != '\0'
    requires ok <==> count == most || (count < |mem| && mem[count] == '\0')
    requires (count > 0 ==> off + count <= bufLen) && (!ok ==> off + count >= bufLen)
    requires Terminated(mem) || most <= |mem|
    ensures var s := mem[..CutLen(mem, most)];
            (ok <==> s == "" || off + |s| <= bufLen) && mem[..count] == if ok then s else Left(off, bufLen, s)
  {
    var k := CutLen(mem, most);
    assert count <= k;
    if ok {
      assert count == k;
    } else {
      assert count < k;
    }
  }

  /** One character. */
  method Put(buf: array<char>, off: nat, c: char)
    requires off < buf.Length
    modifies buf
    ensures buf[..] == Written(old(buf[..]), off, [c])
  {
    buf[off] := c;
  }

  /** Halfway through a format: `done` is written, and the rest is still to do what is to be done. */
  ghost predicate Halfway(format: string, n: nat, i: nat, args: seq<Arg>, j: nat, ptr: nat, bufLen: nat, done: string,
                          whole: Effect)
    requires IsFormat(format, n)
  {
    Then(done, Run(format, n, i, args, j, ptr, bufLen)) == whole
  }

  lemma HalfwayOn(format: string, n: nat, i: nat, args: seq<Arg>, j: nat, ptr: nat, bufLen: nat, done: string,
                  whole: Effect, i': nat, j': nat, t: string)
    requires IsFormat(format, n) && Halfway(format, n, i, args, j, ptr, bufLen, done, whole)
    requires Run(format, n, i, args, j, ptr, bufLen) == Then(t, Run(format, n, i', args, j', ptr + |t|, bufLen))
    ensures Halfway(format, n, i', args, j', ptr + |t|, bufLen, done + t, whole)
  {
    ThenThen(done, t, Run(format, n, i', args, j', ptr + |t|, bufLen));
  }

  /** There is memory for the rest if there is for the whole. */
  lemma HalfwayRoom(format: string, n: nat, i: nat, args: seq<Arg>, j: nat, ptr: nat, bufLen: nat, done: string,
                    whole: Effect, off: nat, length: nat)
    requires IsFormat(format, n) && Halfway(format, n, i, args, j, ptr, bufLen, done, whole)
    requires Room(whole, off, bufLen, length) && ptr == off + |done|
    ensures Room(Run(format, n, i, args, j, ptr, bufLen), ptr, bufLen, length)
  {
  }

  lemma HalfwayStart(format: string, n: nat, args: seq<Arg>, off: nat, bufLen: nat)
    requires IsFormat(format, n) && off < bufLen
    ensures Halfway(format, n, 0, args, 0, off, bufLen, "", Formatted(format, n, args, off, bufLen))
  {
  }

  lemma HalfwayEnd(format: string, n: nat, i: nat, args: seq<Arg>, j: nat, ptr: nat, bufLen: nat, done: string,
                   whole: Effect)
    requires IsFormat(format, n) && i >= n && Halfway(format, n, i, args, j, ptr, bufLen, done, whole)
    ensures whole == if ptr <= bufLen then Text(done) else Panic(done)
  {
    assert done + "" == done;
  }

  lemma HalfwayStop(format: string, n: nat, i: nat, args: seq<Arg>, j: nat, ptr: nat, bufLen: nat, done: string,
                    whole: Effect, t: string)
    requires IsFormat(format, n) && Halfway(format, n, i, args, j, ptr, bufLen, done, whole)
    requires Run(format, n, i, args, j, ptr, bufLen) == Panic(t)
    ensures whole == Panic(done + t)
  {
  }

  /** A literal, or a percent sign, is written wherever it stands. */
  lemma LiteralRuns(format: string, n: nat, i: nat, args: seq<Arg>, j: nat, ptr: nat, bufLen: nat, length: nat)
    requires IsFormat(format, n) && i < n && Room(Run(format, n, i, args, j, ptr, bufLen), ptr, bufLen, length)
    ensures format[i] != '%' ==>
      Run(format, n, i, args, j, ptr, bufLen) == Then([format[i]], Run(format, n, i + 1, args, j, ptr + 1, bufLen))
    ensures format[i] == '%' && format[i + 1] == '%' ==>
      Run(format, n, i, args, j, ptr, bufLen) == Then("%", Run(format, n, i + 2, args, j, ptr + 1, bufLen))
    ensures format[i] != '%' || format[i + 1] == '%' ==> ptr < length
  {
  }

  /** What a format does from some point on, and memory for all it writes. */
  ghost predicate Room(e: Effect, ptr: nat, bufLen: nat, length: nat) {
    e != Wrong && ptr + |e.text| <= length && bufLen <= length < WORD
  }

  /** The directives with an argument, in the loop of `str_buf_marshal_format_v`. */
  method Directive(buf: array<char>, ptr: nat, bufLen: nat, format: string, n: nat, i: nat, args: seq<Arg>, j: nat)
    returns (ok: bool, count: nat, i': nat, j': nat, ghost t: string)
    requires IsFormat(format, n) && i < n && format[i] == '%' && format[i + 1] != '%'
    requires Room(Run(format, n, i, args, j, ptr, bufLen), ptr, bufLen, buf.Length)
    modifies buf
    ensures ptr + |t| <= buf.Length && buf[..] == Written(old(buf[..]), ptr, t)
    ensures !ok ==> Run(format, n, i, args, j, ptr, bufLen) == Panic(t)
    ensures ok ==> i' > i && count == |t|
    ensures ok ==> Run(format, n, i, args, j, ptr, bufLen) == Then(t, Run(format, n, i', args, j', ptr + |t|, bufLen))
  {
    hide DigitRun, Value, Decimal, StrEnd, Passes, Left;
    ok, count, i', j', t := false, 0, i, j, "";
    if format[i + 1] == 's' {
      var mem := args[j].mem;
      var len := StrLen(mem);
      ok, count := MarshalStr(buf, ptr, bufLen, mem, len);
      i', j', t := i + 2, j + 1, if ok then CStr(mem) else "";
    } else if format[i + 1] == 'l' {
      if format[i + 2] == 'u' {
        ok, count := MarshalUint(buf, ptr, bufLen, args[j].val);
        i', j', t := i + 3, j + 1, if ok then Decimal(args[j].val) else "";
      }
    } else if format[i + 1] == '.' {
      ok, count, i', j', t := CutDirective(buf, ptr, bufLen, format, n, i, args, j);
    }
  }

  /** The directive of a cut string. */
  method CutDirective(buf: array<char>, ptr: nat, bufLen: nat, format: string, n: nat, i: nat, args: seq<Arg>, j: nat)
    returns (ok: bool, count: nat, i': nat, j': nat, ghost t: string)
    requires IsFormat(format, n) && i < n && format[i] == '%' && format[i + 1] == '.'
    requires Room(Run(format, n, i, args, j, ptr, bufLen), ptr, bufLen, buf.Length)
    modifies buf
    ensures ptr + |t| <= buf.Length && buf[..] == Written(old(buf[..]), ptr, t)
    ensures !ok ==> Run(format, n, i, args, j, ptr, bufLen) == Panic(t)
    ensures ok ==> i' > i && count == |t|
    ensures ok ==> Run(format, n, i, args, j, ptr, bufLen) == Then(t, Run(format, n, i', args, j', ptr + |t|, bufLen))
  {
    hide DigitRun, Value, Decimal, StrEnd, Passes, Left, CutLen;
    ok, count, i', j', t := false, 0, i, j, "";
    var digits, most;
    ok, most, digits := StrToUint(format, i + 2, n);
    if ok {
      ghost var s := args[j].mem[..CutLen(args[j].mem, most)];
      ok, count := MarshalCut(buf, ptr, bufLen, args[j].mem, most);
      CutDone(args[j].mem, most, ptr, bufLen, ok, count);
      i', j', t := i + 3 + digits, j + 1, args[j].mem[..count];
      assert t == if ok then s else Left(ptr, bufLen, s);
    }
  }

  /** One round of the loop: a literal, or a directive. */
  method Element(buf: array<char>, ptr: nat, bufLen: nat, format: string, n: nat, i: nat, args: seq<Arg>, j: nat)
    returns (ok: bool, count: nat, i': nat, j': nat, ghost t: string)
    requires IsFormat(format, n) && i < n && Room(Run(format, n, i, args, j, ptr, bufLen), ptr, bufLen, buf.Length)
    modifies buf
    ensures ptr + |t| <= buf.Length && buf[..] == Written(old(buf[..]), ptr, t)
    ensures !ok ==> Run(format, n, i, args, j, ptr, bufLen) == Panic(t)
    ensures ok ==> i' > i && count == |t|
    ensures ok ==> Run(format, n, i, args, j, ptr, bufLen) == Then(t, Run(format, n, i', args, j', ptr + |t|, bufLen))
  {
    hide Run, Then;
    ok, count, i', j' := true, 1, i, j;
    LiteralRuns(format, n, i, args, j, ptr, bufLen, buf.Length);
    if format[i] != '%' {
      Put(buf, ptr, format[i]);
      t, i' := [format[i]], i + 1;
    } else if format[i + 1] == '%' {
      Put(buf, ptr, '%');
      t, i' := "%", i + 2;
    } else {
      ok, count, i', j', t := Directive(buf, ptr, bufLen, format, n, i, args, j);
    }
  }

  /** `str_buf_marshal_format_v`. The caller passes the arguments the format asks for, and there is memory
      where its literals come to stand. It stops the kernel exactly when the format does, and in either
      case has written the format's text from `off` on, wherever that ends, and nothing else. */
  method FormatV(buf: array<char>, off: nat, bufLen: nat, format: string, n: nat, args: seq<Arg>)
    returns (ok: bool, len: nat)
    requires IsFormat(format, n) && Room(Formatted(format, n, args, off, bufLen), off, bufLen, buf.Length)
    modifies buf
    ensures var e := Formatted(format, n, args, off, bufLen);
            && (ok <==> e.Text?) && buf[..] == Written(old(buf[..]), off, e.text)
            && (ok ==> len == |e.text| && off + len <= bufLen)
  {
    hide Run, Halfway, Then;
    ghost var orig, done, whole := buf[..], "", Formatted(format, n, args, off, bufLen);
    if off >= bufLen {
      return false, 0;
    }
    HalfwayStart(format, n, args, off, bufLen);
    var ptr, i, j := off, 0, 0;
    while i < n
      invariant ptr == off + |done| <= buf.Length && buf[..] == Written(orig, off, done)
      invariant Halfway(format, n, i, args, j, ptr, bufLen, done, whole)
      decreases n - i
    {
      HalfwayRoom(format, n, i, args, j, ptr, bufLen, done, whole, off, buf.Length);
      var count, i', j';
      ghost var t;
      ok, count, i', j', t := Element(buf, ptr, bufLen, format, n, i, args, j);
      WrittenOn(orig, off, done, t);
      if !ok {
        HalfwayStop(format, n, i, args, j, ptr, bufLen, done, whole, t);
        return false, 0;
      }
      HalfwayOn(format, n, i, args, j, ptr, bufLen, done, whole, i', j', t);
      i, j, ptr, done := i', j', ptr + count, done + t;
    }
    HalfwayEnd(format, n, i, args, j, ptr, bufLen, done, whole);
    return ptr <= bufLen, ptr - off;
  }

  // ---------------------------------------------------------------------------------------------
  // Formatting is concatenation
  // ---------------------------------------------------------------------------------------------

  /** What a format is made of. The letter behind the number of a cut may be any but a digit. */
  datatype Piece = Literal(c: char) | Percent | Str(mem: string) | Num(val: nat) | Cut(most: nat, letter: char, mem: string)

  ghost predicate PieceOk(p: Piece) {
    match p
    case Literal(c) => c != '%'
    case Percent => true
    case Str(mem) => Terminated(mem)
    case Num(v) => v < WORD
    case Cut(n, c, mem) => n < WORD && !IsDigit(c) && (Terminated(mem) || n <= |mem|)
  }

  ghost predicate PiecesOk(ps: seq<Piece>) {
    forall k {:trigger PieceOk(ps[k])} :: 0 <= k < |ps| ==> PieceOk(ps[k])
  }

  /** How it is written in the format. */
  function Source(p: Piece): (s: string)
    ensures |s| > 0
  {
    match p
    case Literal(c) => [c]
    case Percent => "%%"
    case Str(_) => "%s"
    case Num(_) => "%lu"
    case Cut(n, c, _) => "%." + Decimal(n) + [c]
  }

  /** What is to be written for it. */
  function Rendering(p: Piece): string {
    match p
    case Literal(c) => [c]
    case Percent => "%"
    case Str(mem) => CStr(mem)
    case Num(v) => Decimal(v)
    case Cut(n, _, mem) => mem[..CutLen(mem, n)]
  }

  /** A cut of a string in memory: the longest prefix of at most `n` characters without a NUL. */
  ghost predicate IsCut(t: string, mem: string, n: nat) {
    && t <= mem && |t| <= n && '\0' !in t
    && (|t| == n || (|t| < |mem| && mem[|t|] == '\0'))
  }

  /** A string without its NUL. */
  ghost predicate IsCStr(t: string, mem: string) {
    t <= mem && '\0' !in t && |t| < |mem| && mem[|t|] == '\0'
  }

  /** What the renderings are, each told by itself. */
  lemma RenderingIs(p: Piece)
    requires PieceOk(p)
    ensures var t := Rendering(p);
            match p
            case Literal(c) => t == [c]
            case Percent => t == ['%']
            case Str(mem) => IsCStr(t, mem)
            case Num(v) => AllDigits(t, 0, |t|) && Value(t, 0, |t|) == v && |t| > 0 && (|t| > 1 ==> t[0] != '0')
            case Cut(n, _, mem) => IsCut(t, mem, n)
  {
    match p
    case Num(v) =>
      DecimalValue(v);
      NoLeadingZero(v);
      if v == 0 {
        assert Decimal(v) == [CharOf(0)];
      }
    case Cut(n, _, mem) =>
    case _ =>
  }

  /** There is only one cut of a string. */
  lemma OneCut(t: string, u: string, mem: string, n: nat)
    requires IsCut(t, mem, n) && IsCut(u, mem, n)
    ensures t == u
  {
    assert forall i :: 0 <= i < |u| ==> mem[i] == u[i] && u[i] in u;
    assert forall i :: 0 <= i < |t| ==> mem[i] == t[i] && t[i] in t;
  }

  /** The argument passed for it. */
  function Passed(p: Piece): seq<Arg> {
    match p
    case Str(mem) => [StrArg(mem)]
    case Num(v) => [UintArg(v)]
    case Cut(_, _, mem) => [StrArg(mem)]
    case _ => []
  }

  /** The format, the text and the arguments of the pieces from number `k` on. */
  function FormatOf(ps: seq<Piece>, k: nat): string
    requires k <= |ps|
    decreases |ps| - k
  {
    if k == |ps| then "" else Source(ps[k]) + FormatOf(ps, k + 1)
  }

  function TextOf(ps: seq<Piece>, k: nat): string
    requires k <= |ps|
    decreases |ps| - k
  {
    if k == |ps| then "" else Rendering(ps[k]) + TextOf(ps, k + 1)
  }

  function ArgsOf(ps: seq<Piece>, k: nat): seq<Arg>
    requires k <= |ps|
    decreases |ps| - k
  {
    if k == |ps| then [] else Passed(ps[k]) + ArgsOf(ps, k + 1)
  }

  /** What the pieces from number `k` on do, the next byte being `ptr`. */
  function Outcome(ps: seq<Piece>, k: nat, ptr: nat, bufLen: nat): (e: Effect)
    requires k <= |ps|
    ensures !e.Wrong?
    decreases |ps| - k
  {
    if k == |ps| then if ptr <= bufLen then Text("") else Panic("")
    else Step(ps[k], ptr, bufLen, Outcome(ps, k + 1, ptr + |Rendering(ps[k])|, bufLen))
  }

  /** What the piece `p` does, `rest` being what the pieces behind it do: only literals look at no bound. */
  function Step(p: Piece, ptr: nat, bufLen: nat, rest: Effect): Effect {
    match p
    case Literal(_) => Then(Rendering(p), rest)
    case Percent => Then(Rendering(p), rest)
    case Cut(_, _, _) => Bytewise(Rendering(p), ptr, bufLen, rest)
    case _ => Whole(Rendering(p), ptr, bufLen, rest)
  }

  /** The piece `p` is written at `i`, and its argument passed at `j`. */
  ghost predicate Ready(p: Piece, format: string, n: nat, i: nat, args: seq<Arg>, j: nat) {
    && IsFormat(format, n) && PieceOk(p) && Stands(format, i, Source(p)) && i + |Source(p)| <= n
    && Stands(args, j, Passed(p))
  }

  lemma CutParts(format: string, i: nat, most: nat, c: char)
    requires Stands(format, i, "%." + Decimal(most) + [c])
    ensures Stands(format, i, "%.") && Stands(format, i + 2, Decimal(most)) && Stands(format, i + 2 + |Decimal(most)|, [c])
  {
    StandsSplit(format, i, "%." + Decimal(most), [c]);
    StandsSplit(format, i, "%.", Decimal(most));
  }

  lemma CutDigits(format: string, n: nat, i: nat, most: nat, c: char)
    requires n <= |format| && Stands(format, i, Decimal(most)) && Stands(format, i + |Decimal(most)|, [c])
    requires i + |Decimal(most)| < n && most < WORD && !IsDigit(c)
    ensures DigitRun(format, i, n) == |Decimal(most)|
    ensures AllDigits(format, i, |Decimal(most)|) && Value(format, i, |Decimal(most)|) % WORD == most
  {
    hide Decimal, DigitRun, Value, AllDigits;
    StandsHere(format, i + |Decimal(most)|, [c], 0);
    PrintedParses(format, i, n, most);
  }

  lemma CutIsRead(format: string, n: nat, i: nat, most: nat, c: char)
    requires IsFormat(format, n) && Stands(format, i, "%." + Decimal(most) + [c]) && most < WORD
    requires i + 3 + |Decimal(most)| <= n && !IsDigit(c)
    ensures format[i] == '%' && format[i + 1] == '.'
    ensures DigitRun(format, i + 2, n) == |Decimal(most)| > 0
    ensures AllDigits(format, i + 2, |Decimal(most)|) && Value(format, i + 2, |Decimal(most)|) % WORD == most
  {
    CutParts(format, i, most, c);
    StandsHere(format, i, "%.", 0);
    StandsHere(format, i, "%.", 1);
    CutDigits(format, n, i + 2, most, c);
  }

  /** The loop does for the piece `p` what it asks for. */
  ghost predicate Obeyed(p: Piece, format: string, n: nat, i: nat, args: seq<Arg>, j: nat, ptr: nat, bufLen: nat)
    requires IsFormat(format, n)
  {
    Run(format, n, i, args, j, ptr, bufLen)
    == Step(p, ptr, bufLen, Run(format, n, i + |Source(p)|, args, j + |Passed(p)|, ptr + |Rendering(p)|, bufLen))
  }

  lemma RunUnchecked(p: Piece, format: string, n: nat, i: nat, args: seq<Arg>, j: nat, ptr: nat, bufLen: nat)
    requires Ready(p, format, n, i, args, j) && Unchecked(p)
    ensures Obeyed(p, format, n, i, args, j, ptr, bufLen)
  {
    CharsRead(p, format, i);
  }

  lemma RunStr(p: Piece, format: string, n: nat, i: nat, args: seq<Arg>, j: nat, ptr: nat, bufLen: nat)
    requires Ready(p, format, n, i, args, j) && p.Str?
    ensures Obeyed(p, format, n, i, args, j, ptr, bufLen)
  {
    CharsRead(p, format, i);
    PassedAt(p, args, j);
  }

  lemma RunNum(p: Piece, format: string, n: nat, i: nat, args: seq<Arg>, j: nat, ptr: nat, bufLen: nat)
    requires Ready(p, format, n, i, args, j) && p.Num?
    ensures Obeyed(p, format, n, i, args, j, ptr, bufLen)
  {
    CharsRead(p, format, i);
    PassedAt(p, args, j);
  }

  /** The directive of a cut is read as such, and its argument found. */
  ghost predicate CutRead(p: Piece, format: string, n: nat, i: nat, args: seq<Arg>, j: nat) {
    && p.Cut? && IsFormat(format, n) && i + 2 <= n && format[i] == '%' && format[i + 1] == '.'
    && DigitRun(format, i + 2, n) == |Decimal(p.most)| && AllDigits(format, i + 2, |Decimal(p.most)|)
    && Value(format, i + 2, |Decimal(p.most)|) % WORD == p.most
    && j < |args| && args[j] == StrArg(p.mem) && (Terminated(p.mem) || p.most <= |p.mem|)
  }

  lemma ReadyCut(p: Piece, format: string, n: nat, i: nat, args: seq<Arg>, j: nat)
    requires Ready(p, format, n, i, args, j) && p.Cut?
    ensures CutRead(p, format, n, i, args, j)
  {
    CutIsRead(format, n, i, p.most, p.letter);
    PassedAt(p, args, j);
  }

  lemma RunCut(p: Piece, format: string, n: nat, i: nat, args: seq<Arg>, j: nat, ptr: nat, bufLen: nat)
    requires CutRead(p, format, n, i, args, j)
    ensures Obeyed(p, format, n, i, args, j, ptr, bufLen)
  {
    assert |Source(p)| == 3 + |Decimal(p.most)|;
  }

  lemma RunPiece(p: Piece, format: string, n: nat, i: nat, args: seq<Arg>, j: nat, ptr: nat, bufLen: nat)
    requires Ready(p, format, n, i, args, j)
    ensures Obeyed(p, format, n, i, args, j, ptr, bufLen)
  {
    match p
    case Literal(_) => RunUnchecked(p, format, n, i, args, j, ptr, bufLen);
    case Percent => RunUnchecked(p, format, n, i, args, j, ptr, bufLen);
    case Str(_) => RunStr(p, format, n, i, args, j, ptr, bufLen);
    case Num(_) => RunNum(p, format, n, i, args, j, ptr, bufLen);
    case Cut(_, _, _) =>
      ReadyCut(p, format, n, i, args, j);
      RunCut(p, format, n, i, args, j, ptr, bufLen);
  }

  lemma PassedAt(p: Piece, args: seq<Arg>, j: nat)
    requires Stands(args, j, Passed(p))
    ensures Passed(p) != [] ==> j < |args| && args[j] == Passed(p)[0]
  {
    if Passed(p) != [] {
      StandsHere(args, j, Passed(p), 0);
    }
  }

  lemma CharsRead(p: Piece, format: string, i: nat)
    requires Stands(format, i, Source(p)) && !p.Cut?
    ensures format[i] == Source(p)[0]
    ensures |Source(p)| > 1 ==> format[i + 1] == Source(p)[1]
    ensures |Source(p)| > 2 ==> format[i + 2] == Source(p)[2]
  {
    StandsHere(format, i, Source(p), 0);
    if |Source(p)| > 1 {
      StandsHere(format, i, Source(p), 1);
    }
    if |Source(p)| > 2 {
      StandsHere(format, i, Source(p), 2);
    }
  }

  /** The pieces from number `k` on are written from `i` to the end of the format, and their arguments
      passed from `j` on. */
  ghost predicate Laid(ps: seq<Piece>, k: nat, format: string, n: nat, i: nat, args: seq<Arg>, j: nat)
    requires k <= |ps|
    decreases |ps| - k
  {
    if k == |ps| then IsFormat(format, n) && i == n
    else Ready(ps[k], format, n, i, args, j) && Laid(ps, k + 1, format, n, i + |Source(ps[k])|, args, j + |Passed(ps[k])|)
  }

  /** The format and the arguments of the pieces from number `k` on. */
  ghost predicate Spelled(ps: seq<Piece>, k: nat, format: string, n: nat, i: nat, args: seq<Arg>, j: nat) {
    && k <= |ps| && PiecesOk(ps) && IsFormat(format, n)
    && Stands(format, i, FormatOf(ps, k)) && i + |FormatOf(ps, k)| == n && Stands(args, j, ArgsOf(ps, k))
  }

  lemma SpelledFirst(ps: seq<Piece>, k: nat, format: string, n: nat, i: nat, args: seq<Arg>, j: nat)
    requires Spelled(ps, k, format, n, i, args, j) && k < |ps|
    ensures Ready(ps[k], format, n, i, args, j)
    ensures k + 1 <= |ps| && Spelled(ps, k + 1, format, n, i + |Source(ps[k])|, args, j + |Passed(ps[k])|)
  {
    hide Source, Passed, PieceOk, Stands;
    var s, t := Source(ps[k]), FormatOf(ps, k + 1);
    StandsSplit(format, i, s, t);
    assert |s + t| == |s| + |t|;
    StandsSplit(args, j, Passed(ps[k]), ArgsOf(ps, k + 1));
  }

  lemma {:induction false} LaidOut(ps: seq<Piece>, k: nat, format: string, n: nat, i: nat, args: seq<Arg>, j: nat)
    requires k <= |ps| && Spelled(ps, k, format, n, i, args, j)
    ensures Laid(ps, k, format, n, i, args, j)
    decreases |ps| - k
  {
    hide Spelled, Laid, Ready, Source;
    if k < |ps| {
      SpelledFirst(ps, k, format, n, i, args, j);
      LaidOut(ps, k + 1, format, n, i + |Source(ps[k])|, args, j + |Passed(ps[k])|);
      LaidFirst(ps, k, format, n, i, args, j);
    } else {
      LaidLast(ps, k, format, n, i, args, j);
    }
  }

  lemma LaidLast(ps: seq<Piece>, k: nat, format: string, n: nat, i: nat, args: seq<Arg>, j: nat)
    requires Spelled(ps, k, format, n, i, args, j) && k >= |ps|
    ensures k == |ps| && Laid(ps, k, format, n, i, args, j)
  {
  }

  lemma LaidFirst(ps: seq<Piece>, k: nat, format: string, n: nat, i: nat, args: seq<Arg>, j: nat)
    requires k < |ps| && Ready(ps[k], format, n, i, args, j)
    requires Laid(ps, k + 1, format, n, i + |Source(ps[k])|, args, j + |Passed(ps[k])|)
    ensures Laid(ps, k, format, n, i, args, j)
  {
  }

  /** For any pieces, any place and any buffer, the format made of them does what they do. */
  lemma {:induction false} RunPieces(ps: seq<Piece>, k: nat, format: string, n: nat, i: nat, args: seq<Arg>, j: nat,
                                     ptr: nat, bufLen: nat)
    requires k <= |ps| && Laid(ps, k, format, n, i, args, j)
    ensures IsFormat(format, n) && Run(format, n, i, args, j, ptr, bufLen) == Outcome(ps, k, ptr, bufLen)
    decreases |ps| - k
  {
    hide Run, Ready, Source, Rendering, Passed, Step;
    if k < |ps| {
      var p := ps[k];
      RunPiece(p, format, n, i, args, j, ptr, bufLen);
      RunPieces(ps, k + 1, format, n, i + |Source(p)|, args, j + |Passed(p)|, ptr + |Rendering(p)|, bufLen);
    } else {
      RunEnd(format, n, args, j, ptr, bufLen);
    }
  }

  lemma RunEnd(format: string, n: nat, args: seq<Arg>, j: nat, ptr: nat, bufLen: nat)
    requires IsFormat(format, n)
    ensures Run(format, n, n, args, j, ptr, bufLen) == if ptr <= bufLen then Text("") else Panic("")
  {
  }

  /** The formatter is called with the format made of the pieces, and with their arguments. */
  ghost predicate CalledWith(ps: seq<Piece>, format: string, args: seq<Arg>) {
    PiecesOk(ps) && format == FormatOf(ps, 0) + ['\0'] && args == ArgsOf(ps, 0)
  }

  lemma FormattedPieces(ps: seq<Piece>, format: string, args: seq<Arg>, off: nat, bufLen: nat)
    requires CalledWith(ps, format, args) && off < bufLen
    ensures Formatted(format, |format| - 1, args, off, bufLen) == Outcome(ps, 0, off, bufLen)
  {
    var z := 0;
    assert Stands(format, z, FormatOf(ps, z)) && Stands(args, z, ArgsOf(ps, z));
    LaidOut(ps, z, format, |format| - 1, z, args, z);
    RunPieces(ps, z, format, |format| - 1, z, args, z, off, bufLen);
  }

  /** Given room for one byte more than the renderings take together, they are written one after the
      other. */
  lemma {:induction false} RoomIsEnough(ps: seq<Piece>, k: nat, ptr: nat, bufLen: nat)
    requires k <= |ps| && ptr + |TextOf(ps, k)| < bufLen < WORD
    ensures Outcome(ps, k, ptr, bufLen) == Text(TextOf(ps, k))
    decreases |ps| - k
  {
    if k < |ps| {
      SubIs(bufLen, ptr);
      RoomIsEnough(ps, k + 1, ptr + |Rendering(ps[k])|, bufLen);
    }
  }

  /** So the formatter writes, for any pieces and given room, the concatenation of their renderings. */
  lemma FormattingConcatenates(ps: seq<Piece>, format: string, args: seq<Arg>, off: nat, bufLen: nat)
    requires CalledWith(ps, format, args) && off + |TextOf(ps, 0)| < bufLen < WORD
    ensures Formatted(format, |format| - 1, args, off, bufLen) == Text(TextOf(ps, 0))
  {
    var z := 0;
    FormattedPieces(ps, format, args, off, bufLen);
    RoomIsEnough(ps, z, off, bufLen);
  }

  /** A string or number must end before the last byte left, and the whole text may end with it. */
  ghost predicate FitsIn(ps: seq<Piece>, k: nat, room: nat)
    requires k <= |ps|
  {
    |TextOf(ps, k)| <= room && forall x {:trigger CheckedAt(ps, k, room, x)} :: k <= x < |ps| ==> CheckedAt(ps, k, room, x)
  }

  lemma FitsNext(ps: seq<Piece>, k: nat, room: nat)
    requires k < |ps|
    ensures var r := |Rendering(ps[k])|;
            FitsIn(ps, k, room) <==> r <= room && CheckedAt(ps, k, room, k) && FitsIn(ps, k + 1, room - r)
  {
    hide Rendering;
    var r := |Rendering(ps[k])|;
    if r <= room {
      var l, left: nat := k + 1, room - r;
      assert |TextOf(ps, k)| == r + |TextOf(ps, l)|;
      if FitsIn(ps, k, room) {
        forall x | l <= x < |ps| ensures CheckedAt(ps, l, left, x) {
          assert CheckedAt(ps, k, room, x);
        }
      }
      if CheckedAt(ps, k, room, k) && FitsIn(ps, l, left) {
        forall x | k <= x < |ps| ensures CheckedAt(ps, k, room, x) {
          assert x > k ==> CheckedAt(ps, l, left, x);
        }
      }
    }
  }

  /** Pieces that end without stopping the kernel have stayed in the buffer. */
  lemma {:induction false} PiecesInside(ps: seq<Piece>, k: nat, ptr: nat, bufLen: nat)
    requires k <= |ps|
    ensures var e := Outcome(ps, k, ptr, bufLen); e.Text? ==> ptr + |e.text| <= bufLen
    decreases |ps| - k
  {
    hide Rendering;
    if k < |ps| {
      PiecesInside(ps, k + 1, ptr + |Rendering(ps[k])|, bufLen);
    }
  }

  lemma {:induction false} GoesThrough(ps: seq<Piece>, k: nat, ptr: nat, bufLen: nat)
    requires k <= |ps| && ptr <= bufLen < WORD
    ensures var e := Outcome(ps, k, ptr, bufLen);
            (e.Text? <==> FitsIn(ps, k, bufLen - ptr)) && (e.Text? ==> e.text == TextOf(ps, k))
    decreases |ps| - k
  {
    hide Rendering, FitsIn;
    if k < |ps| {
      var r := |Rendering(ps[k])|;
      FitsNext(ps, k, bufLen - ptr);
      LiteralLength(ps[k]);
      SubIs(bufLen, ptr);
      assert Taken(ps, k + 1, k + 1) == 0;
      if ptr + r <= bufLen {
        GoesThrough(ps, k + 1, ptr + r, bufLen);
      } else {
        PiecesInside(ps, k + 1, ptr + r, bufLen);
      }
    } else {
      NothingFits(ps, k, bufLen - ptr);
    }
  }

  lemma NothingFits(ps: seq<Piece>, k: nat, room: nat)
    requires k == |ps|
    ensures FitsIn(ps, k, room)
  {
  }

  /** The formatter gets through a format made of any pieces exactly if they fit, and has then written the
      concatenation of their renderings. */
  lemma FormattedExactly(ps: seq<Piece>, format: string, args: seq<Arg>, off: nat, bufLen: nat)
    requires CalledWith(ps, format, args) && off < bufLen < WORD
    ensures var e := Formatted(format, |format| - 1, args, off, bufLen);
            (e.Text? <==> FitsIn(ps, 0, bufLen - off)) && (e.Text? ==> e.text == TextOf(ps, 0))
  {
    var z := 0;
    FormattedPieces(ps, format, args, off, bufLen);
    GoesThrough(ps, z, off, bufLen);
  }

  /** Any other directive stops the kernel, whatever the arguments. */
  lemma OthersStop(format: string, n: nat, i: nat, args: seq<Arg>, j: nat, ptr: nat, bufLen: nat)
    requires IsFormat(format, n) && i < n && format[i] == '%'
    requires var c := format[i + 1];
             || c !in ['%', 's', 'l', '.']
             || (c == 'l' && format[i + 2] != 'u')
             || (c == '.' && (i + 2 >= n || !IsDigit(format[i + 2])))
    ensures Run(format, n, i, args, j, ptr, bufLen) == Panic("")
  {
  }

  // ---------------------------------------------------------------------------------------------
  // The end of the buffer
  // ---------------------------------------------------------------------------------------------

  /** The bytes the pieces from number `k` up to number `m` take. */
  function Taken(ps: seq<Piece>, k: nat, m: nat): nat
    requires k <= m <= |ps|
    decreases m - k
  {
    if k == m then 0 else |Rendering(ps[k])| + Taken(ps, k + 1, m)
  }

  predicate Unchecked(p: Piece) {
    p.Literal? || p.Percent?
  }

  /** Piece `m` is a literal that finds no byte left, and no string or number before it ended there. */
  ghost predicate Bursts(ps: seq<Piece>, k: nat, room: nat, m: nat)
    requires k <= |ps|
  {
    && k <= m < |ps| && Unchecked(ps[m]) && Taken(ps, k, m) == room
    && forall x :: k <= x < m ==> CheckedAt(ps, k, room, x)
  }

  ghost predicate CheckedAt(ps: seq<Piece>, k: nat, room: nat, x: nat)
    requires k <= x < |ps|
  {
    ps[x].Str? || ps[x].Num? ==> Taken(ps, k, x + 1) < room
  }

  lemma BurstsLater(ps: seq<Piece>, k: nat, room: nat, m: nat)
    requires k < m < |ps|
    ensures var r := |Rendering(ps[k])|;
            Bursts(ps, k, room, m) <==> r <= room && CheckedAt(ps, k, room, k) && Bursts(ps, k + 1, room - r, m)
  {
    var r := |Rendering(ps[k])|;
    if r <= room {
      var l, left: nat := k + 1, room - r;
      forall x | l <= x < m ensures CheckedAt(ps, k, room, x) <==> CheckedAt(ps, l, left, x) {
      }
    }
  }

  ghost predicate SomeBursts(ps: seq<Piece>, k: nat, room: nat)
    requires k <= |ps|
  {
    exists m :: Bursts(ps, k, room, m)
  }

  lemma BurstsFirst(ps: seq<Piece>, k: nat, room: nat)
    requires k < |ps|
    ensures var r := |Rendering(ps[k])|;
            SomeBursts(ps, k, room) <==>
              (Unchecked(ps[k]) && room == 0) || (r <= room && CheckedAt(ps, k, room, k) && SomeBursts(ps, k + 1, room - r))
  {
    var r := |Rendering(ps[k])|;
    assert Bursts(ps, k, room, k) <==> Unchecked(ps[k]) && room == 0;
    if m: nat :| Bursts(ps, k, room, m) && m > k {
      BurstsLater(ps, k, room, m);
    }
    if r <= room && CheckedAt(ps, k, room, k) && SomeBursts(ps, k + 1, room - r) {
      var m :| Bursts(ps, k + 1, room - r, m);
      BurstsLater(ps, k, room, m);
    }
  }

  lemma LiteralLength(p: Piece)
    ensures Unchecked(p) ==> |Rendering(p)| == 1
  {
  }

  /** Bytes are written behind the buffer exactly when some literal bursts it. */
  lemma {:induction false} OverrunPieces(ps: seq<Piece>, k: nat, ptr: nat, bufLen: nat)
    requires k <= |ps| && ptr <= bufLen < WORD
    ensures ptr + |Outcome(ps, k, ptr, bufLen).text| > bufLen <==> SomeBursts(ps, k, bufLen - ptr)
    decreases |ps| - k
  {
    hide Rendering;
    if k < |ps| {
      var r := |Rendering(ps[k])|;
      BurstsFirst(ps, k, bufLen - ptr);
      LiteralLength(ps[k]);
      SubIs(bufLen, ptr);
      assert Taken(ps, k + 1, k + 1) == 0;
      if ptr + r <= bufLen {
        OverrunPieces(ps, k + 1, ptr + r, bufLen);
      }
    }
  }

  /** So the promise that nothing behind the buffer is overwritten fails exactly for the formats in which
      some literal bursts it; the kernel has then been stopped, or stops at the end. */
  lemma OverrunExactly(ps: seq<Piece>, format: string, args: seq<Arg>, off: nat, bufLen: nat)
    requires CalledWith(ps, format, args) && off < bufLen < WORD
    ensures var e := Formatted(format, |format| - 1, args, off, bufLen);
            && !e.Wrong? && (off + |e.text| > bufLen <==> SomeBursts(ps, 0, bufLen - off))
            && (off + |e.text| > bufLen ==> e.Panic?)
  {
    var z := 0;
    FormattedPieces(ps, format, args, off, bufLen);
    OverrunPieces(ps, z, off, bufLen);
    EndsInside(format, |format| - 1, z, args, z, off, bufLen);
  }

  /** Such a format: of two literals the second lands behind a buffer of one byte. */
  lemma LiteralsOverrun()
    ensures Formatted(['a', 'b', '\0'], 2, [], 0, 1) == Panic("ab")
  {
    var f := ['a', 'b', '\0'];
    assert Run(f, 2, 2, [], 0, 2, 1) == Panic("");
    assert Run(f, 2, 1, [], 0, 1, 1) == Panic("b");
  }
}
