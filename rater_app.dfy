/** The rater's mutable `state` object of app.js and the handlers that
    change it: the five setters, the identification-type toggle,
    `resetAll`, and `applyCodeFromInput`, which trims the pasted text and
    decodes it as a share code. Rendering, persistence, the URL hash and the
    alert box are outside the model; the text of the code field is the
    parameter of the apply handler. */
module RaterApp {
  import opened Helpers
  import opened Assessment
  import opened Base64Url
  import opened Codec

  // ---- String.prototype.trim ----

  /** The characters `String.prototype.trim` removes: ECMAScript's
      WhiteSpace (tab, vertical tab, form feed, space, no-break space, the
      byte-order mark and the Unicode space separators) and its
      LineTerminator (line feed, carriage return, line and paragraph
      separators). */
  predicate IsJsWhitespace(c: char)
  {
    c == '\t' || c == '\n' || c == '\U{000B}' || c == '\U{000C}' || c == '\r' ||
    c == ' ' || c == '\U{00A0}' || c == '\U{1680}' ||
    ('\U{2000}' <= c <= '\U{200A}') ||
    c == '\U{2028}' || c == '\U{2029}' || c == '\U{202F}' || c == '\U{205F}' ||
    c == '\U{3000}' || c == '\U{FEFF}'
  }

  predicate AllJsWhitespace(s: string)
  {
    forall k :: 0 <= k < |s| ==> IsJsWhitespace(s[k])
  }

  /** The text with its leading whitespace removed: a suffix of the text
      (what else it is, TrimStartRemovesRun states). */
  function TrimStart(s: string): (r: string)
    ensures |r| <= |s| && r == s[|s| - |r|..]
  {
    if s == [] then []
    else if IsJsWhitespace(s[0]) then TrimStart(s[1..])
    else s
  }

  /** The text with its trailing whitespace removed: a prefix of the text
      (what else it is, TrimEndRemovesRun states). */
  function TrimEnd(s: string): (r: string)
    ensures |r| <= |s| && r == s[..|r|]
  {
    if s == [] then []
    else if IsJsWhitespace(s[|s| - 1]) then TrimEnd(s[..|s| - 1])
    else s
  }

  /** TrimStart removes exactly the leading run of whitespace: everything
      it drops is whitespace, and what it keeps does not start with any. */
  lemma {:induction false} TrimStartRemovesRun(s: string)
    ensures AllJsWhitespace(s[..|s| - |TrimStart(s)|])
    ensures TrimStart(s) != [] ==> !IsJsWhitespace(TrimStart(s)[0])
    decreases |s|
  {
    if s != [] && IsJsWhitespace(s[0]) {
      TrimStartRemovesRun(s[1..]);
      WhitespacePrefix(s, |s| - |TrimStart(s)|);
    }
  }

  /** A whitespace first character in front of a whitespace run is a
      longer whitespace run. */
  lemma WhitespacePrefix(s: string, n: nat)
    requires 1 <= n <= |s| && IsJsWhitespace(s[0])
    requires AllJsWhitespace(s[1..][..n - 1])
    ensures AllJsWhitespace(s[..n])
  {
    assert forall k :: 1 <= k < n ==> s[..n][k] == s[1..][..n - 1][k - 1];
  }

  /** TrimEnd removes exactly the trailing run of whitespace: everything it
      drops is whitespace, and what it keeps does not end with any. */
  lemma {:induction false} TrimEndRemovesRun(s: string)
    ensures AllJsWhitespace(s[|TrimEnd(s)|..])
    ensures TrimEnd(s) != [] ==> !IsJsWhitespace(TrimEnd(s)[|TrimEnd(s)| - 1])
    decreases |s|
  {
    if s != [] && IsJsWhitespace(s[|s| - 1]) {
      var rest := TrimEnd(s[..|s| - 1]);
      TrimEndRemovesRun(s[..|s| - 1]);
      assert s[|rest|..] == s[..|s| - 1][|rest|..] + [s[|s| - 1]];
    }
  }

  /** `input.trim()`: a piece of the text that neither starts nor ends with
      whitespace. */
  function Trim(s: string): (r: string)
    ensures |r| <= |s|
    ensures r != [] ==> !IsJsWhitespace(r[0]) && !IsJsWhitespace(r[|r| - 1])
  {
    var u := TrimStart(s);
    TrimStartRemovesRun(s);
    TrimEndRemovesRun(u);
    var r := TrimEnd(u);
    assert r != [] ==> r[0] == u[0];
    r
  }

  // ---- The apply handler's outcome ----

  /** What `applyCodeFromInput` does with the text of the code field: returns
      at once when the trimmed text is empty, assigns the decoded record to
      the state, or shows the message of the error `decodeCode` throws. */
  datatype ApplyOutcome = Ignored | Applied(record: Record) | Rejected(error: DecodeError)

  function ApplyResult(input: string): (r: ApplyOutcome)
    ensures r.Applied? ==> InCodeRange(r.record)
  {
    var code := Trim(input);
    if code == [] then Ignored
    else match DecodedCode(code)
      case Ok(s) => Applied(s)
      case Err(e) => Rejected(e)
  }

  // ---- The state object ----

  /** The `state` object: the four levels, the risk type and the identification-type mask,
      updated in place by the handlers. */
  class RaterState {
    var cost: int
    var linkability: int
    var ease: int
    var identifiability: int
    var riskType: int
    var idTypesMask: bv4

    /** The record the state currently holds, as `computeScores(state)` and
        `encodeCode(state)` read it. */
    function Current(): Record
      reads this
    {
      Record(cost, linkability, ease, identifiability, riskType, idTypesMask)
    }

    /** The invariant every handler keeps: each field lies in the range a
        share code can carry. Whatever value a setter receives and whatever
        text is pasted into the code field, the state stays inside it, so
        the current state can always be shared and read back unchanged
        (CodeRoundTrip). */
    predicate Valid()
      reads this
    {
      InCodeRange(Current())
    }

    /** The initial `state` literal. */
    constructor ()
      ensures Current() == Defaults
      ensures Valid() && InUiRange(Current())
    {
      cost, linkability, ease, identifiability, riskType, idTypesMask := 2, 2, 2, 2, 1, 0;
    }

    /** `setCost(v)`: `state.cost = clamp(v, 1, 3)`. */
    method SetCost(v: int)
      modifies this
      ensures Current() == old(Current()).(cost := Clamp(v, 1, 3))
      ensures old(Valid()) ==> Valid()
      ensures old(InUiRange(Current())) ==> InUiRange(Current())
    {
      cost := Clamp(v, 1, 3);
    }

    /** `setLinkability(v)`: `state.linkability = clamp(v, 1, 3)`. */
    method SetLinkability(v: int)
      modifies this
      ensures Current() == old(Current()).(linkability := Clamp(v, 1, 3))
      ensures old(Valid()) ==> Valid()
      ensures old(InUiRange(Current())) ==> InUiRange(Current())
    {
      linkability := Clamp(v, 1, 3);
    }

    /** `setEase(v)`: `state.ease = clamp(v, 1, 3)`. */
    method SetEase(v: int)
      modifies this
      ensures Current() == old(Current()).(ease := Clamp(v, 1, 3))
      ensures old(Valid()) ==> Valid()
      ensures old(InUiRange(Current())) ==> InUiRange(Current())
    {
      ease := Clamp(v, 1, 3);
    }

    /** `setIdentifiability(v)`: `state.identifiability = clamp(v, 1, 3)`. */
    method SetIdentifiability(v: int)
      modifies this
      ensures Current() == old(Current()).(identifiability := Clamp(v, 1, 3))
      ensures old(Valid()) ==> Valid()
      ensures old(InUiRange(Current())) ==> InUiRange(Current())
    {
      identifiability := Clamp(v, 1, 3);
    }

    /** `setRiskType(v)`: `state.riskType = clamp(v, 1, 3)`. */
    method SetRiskType(v: int)
      modifies this
      ensures Current() == old(Current()).(riskType := Clamp(v, 1, 3))
      ensures old(Valid()) ==> Valid()
      ensures old(InUiRange(Current())) ==> InUiRange(Current())
    {
      riskType := Clamp(v, 1, 3);
    }

    /** `toggleIdType(idx)`: `state.idTypesMask ^= (1 << idx)` for one of the
        four chips; type `idx` flips, every other type and every level stays. */
    method ToggleIdType(idx: nat)
      requires idx < 4
      modifies this
      ensures Current() == old(Current()).(idTypesMask := ToggleBit(old(idTypesMask), idx))
      ensures forall j :: 0 <= j < 4 ==> (Selected(idTypesMask, j) <==> (Selected(old(idTypesMask), j) != (j == idx)))
      ensures old(Valid()) ==> Valid()
      ensures old(InUiRange(Current())) ==> InUiRange(Current())
    {
      idTypesMask := ToggleBit(idTypesMask, idx);
    }

    /** `resetAll`: the state takes the default values again. */
    method ResetAll()
      modifies this
      ensures Current() == Defaults
      ensures Valid() && InUiRange(Current())
    {
      cost, linkability, ease, identifiability, riskType, idTypesMask := 2, 2, 2, 2, 1, 0;
    }

    /** `applyCodeFromInput(input)`: trim, decode with `decodeCode`, and on
        success assign every field of the decoded record; an empty input or
        a code that fails to decode leaves the state as it was. */
    method ApplyCodeFromInput(input: string) returns (outcome: ApplyOutcome)
      modifies this
      ensures outcome == ApplyResult(input)
      ensures outcome.Applied? ==> Current() == outcome.record
      ensures !outcome.Applied? ==> Current() == old(Current())
      ensures old(Valid()) ==> Valid()
    {
      var code := Trim(input);
      if code == [] {
        return Ignored;
      }
      var decoded := DecodeCode(code);
      match decoded {
        case Ok(s) =>
          cost, linkability, ease, identifiability, riskType, idTypesMask :=
            s.cost, s.linkability, s.ease, s.identifiability, s.riskType, s.idTypesMask;
          outcome := Applied(s);
        case Err(e) =>
          outcome := Rejected(e);
      }
    }
  }

  // ---- Properties ----

  /** Trimming twice is trimming once. */
  lemma TrimIdempotent(s: string)
    ensures Trim(Trim(s)) == Trim(s)
  {
    var u := TrimStart(s);
    var t := TrimEnd(u);
    TrimStartRemovesRun(s);
    TrimEndRemovesRun(u);
    if t != [] {
      assert t[0] == u[0];
    }
    TrimStartKeepsUntrimmed(t);
    TrimEndKeepsUntrimmed(t);
  }

  /** A text that does not start with whitespace is its own TrimStart. */
  lemma TrimStartKeepsUntrimmed(t: string)
    requires t != [] ==> !IsJsWhitespace(t[0])
    ensures TrimStart(t) == t
  {
  }

  /** A text that does not end with whitespace is its own TrimEnd. */
  lemma TrimEndKeepsUntrimmed(t: string)
    requires t != [] ==> !IsJsWhitespace(t[|t| - 1])
    ensures TrimEnd(t) == t
  {
  }

  /** The trimmed text is empty exactly when the text is all whitespace. */
  lemma TrimEmptyIff(s: string)
    ensures Trim(s) == [] <==> AllJsWhitespace(s)
  {
    var u := TrimStart(s);
    TrimStartRemovesRun(s);
    TrimEndRemovesRun(u);
    assert u[0..] == u;
    assert s[..|s|] == s;
    if u != [] {
      assert u[0] == s[|s| - |u|];
    }
  }

  /** Whitespace before and after a text that neither starts nor ends with
      whitespace is exactly what `trim` removes. */
  lemma {:induction false} TrimSurrounded(pre: string, t: string, post: string)
    requires AllJsWhitespace(pre) && AllJsWhitespace(post)
    requires t != [] && !IsJsWhitespace(t[0]) && !IsJsWhitespace(t[|t| - 1])
    ensures Trim(pre + t + post) == t
  {
    TrimStartSurrounded(pre, t + post);
    assert pre + t + post == pre + (t + post);
    TrimEndSurrounded(t, post);
  }

  lemma {:induction false} TrimStartSurrounded(pre: string, u: string)
    requires AllJsWhitespace(pre)
    requires u != [] && !IsJsWhitespace(u[0])
    ensures TrimStart(pre + u) == u
  {
    if pre != [] {
      assert (pre + u)[1..] == pre[1..] + u;
      TrimStartSurrounded(pre[1..], u);
    } else {
      assert pre + u == u;
    }
  }

  lemma {:induction false} TrimEndSurrounded(t: string, post: string)
    requires AllJsWhitespace(post)
    requires t != [] && !IsJsWhitespace(t[|t| - 1])
    ensures TrimEnd(t + post) == t
  {
    if post != [] {
      var s := t + post;
      assert s[..|s| - 1] == t + post[..|post| - 1];
      TrimEndSurrounded(t, post[..|post| - 1]);
    } else {
      assert t + post == t;
    }
  }

  /** No URL-safe Base64 character is whitespace. */
  lemma UrlCharNotWhitespace(c: char)
    requires IsUrlChar(c)
    ensures !IsJsWhitespace(c)
  {
  }

  /** Pasting the code of any record in the code range, with any whitespace
      around it, applies exactly that record. */
  lemma PastedCodeApplies(s: Record, pre: string, post: string)
    requires InCodeRange(s)
    requires AllJsWhitespace(pre) && AllJsWhitespace(post)
    ensures ApplyResult(pre + EncodedCode(s) + post) == Applied(s)
  {
    var code := EncodedCode(s);
    EncodeForm(EncodeBytes(s));
    UrlCharNotWhitespace(code[0]);
    UrlCharNotWhitespace(code[|code| - 1]);
    TrimSurrounded(pre, code, post);
    CodeRoundTrip(s);
  }

  /** Text that is only whitespace is ignored. */
  lemma BlankInputIgnored(input: string)
    ensures ApplyResult(input) == Ignored <==> AllJsWhitespace(input)
  {
    TrimEmptyIff(input);
  }

  /** A character of the text that is not whitespace is still in the
      trimmed text, at its old position less the leading whitespace. */
  lemma KeptByTrim(s: string, k: nat) returns (j: nat)
    requires k < |s| && !IsJsWhitespace(s[k])
    ensures j < |Trim(s)| && Trim(s)[j] == s[k]
  {
    var u := TrimStart(s);
    TrimStartRemovesRun(s);
    var n := |s| - |u|;
    if k < n {
      assert false;
    }
    j := k - n;
    assert u[j] == s[k];
    var r := TrimEnd(u);
    TrimEndRemovesRun(u);
    if j >= |r| {
      assert false;
    }
    assert r[j] == u[j];
  }

  /** Pasting text that holds, anywhere, a character that is neither
      whitespace nor one a code can carry makes the handler show the Base64
      error and leave the state alone. */
  lemma ForeignInputRejected(input: string, k: nat)
    requires k < |input|
    requires !IsStdChar(input[k]) && input[k] != '-' && input[k] != '_' && input[k] != '='
    requires !IsJsWhitespace(input[k])
    ensures ApplyResult(input) == Rejected(BadBase64)
  {
    var j := KeptByTrim(input, k);
    ForeignCodeRejected(Trim(input), j);
  }
}

