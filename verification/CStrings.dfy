/** C strings as the library sees them: NUL-free sequences of characters with an implicit NUL at the end. */
module CStrings {

  /** What `*s` can yield, whether plain `char` is signed or unsigned. */
  type Label = c: int | -128 <= c < 256

  /** A character of a string, that is, any label but NUL. */
  type Char = c: int | -128 <= c < 256 && c != 0 witness 1

  type CString = seq<Char>

  const NUL: Label := 0
  const HYPHEN: Char := 45
  const ZERO: Char := 48
  const NINE: Char := 57

  /** Reading the character at offset i of a string; offset |s| holds the terminating NUL. */
  function At(s: CString, i: nat): Label
    requires i <= |s|
  {
    if i < |s| then s[i] else NUL
  }

  /** The string at the start of a stretch of memory: everything before the first NUL. */
  function CStr(mem: seq<Label>): CString {
    if mem == [] || mem[0] == NUL then [] else [mem[0]] + CStr(mem[1..])
  }

  lemma {:induction false} CStrOfTerminated(s: CString, rest: seq<Label>)
    ensures CStr(s + [NUL] + rest) == s
  {
    if s != [] {
      assert (s + [NUL] + rest)[1..] == s[1..] + [NUL] + rest;
      CStrOfTerminated(s[1..], rest);
    }
  }

  lemma {:induction false} CStrOfString(s: CString)
    ensures CStr(s) == s
  {
    if s != [] {
      CStrOfString(s[1..]);
    }
  }

  /** What lies behind a NUL is of no account. */
  lemma {:induction false} CStrIgnoresRest(mem: seq<Label>, rest: seq<Label>)
    ensures CStr(mem + [NUL] + rest) == CStr(mem)
  {
    if mem != [] {
      assert (mem + [NUL] + rest)[1..] == mem[1..] + [NUL] + rest;
      CStrIgnoresRest(mem[1..], rest);
    }
  }

  /** A C string ends before any NUL of the memory it lies in. */
  lemma {:induction false} CStrStops(mem: seq<Label>, i: nat)
    requires i < |mem| && mem[i] == NUL
    ensures |CStr(mem)| <= i
  {
    if i > 0 {
      CStrStops(mem[1..], i - 1);
    }
  }

  predicate IsDigit(c: Char) {
    ZERO <= c <= NINE
  }

  predicate AllDigits(s: CString) {
    forall i :: 0 <= i < |s| ==> IsDigit(s[i])
  }
}

/** Failure codes and optional results shared by the components. */
module Results {
  datatype Option<+T> = None | Some(value: T)

  /** The codes the functions return: OK is 0, REJECTED the plain 2 of the table builder. */
  datatype Rc = OK | ENOENT | EEXIST | EDOM | ELOOP | ENOSPC | REJECTED

  /** Result of a lookup. Fault marks a read outside every object, where C gives the program no meaning. */
  datatype Outcome = Found(val: nat) | Failed(rc: Rc) | Fault
}
