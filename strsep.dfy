/** `mystrsep` of `i2c.c`, the `strsep` replacement `main` uses to split each data argument into
    byte tokens. A C string is a character array read from an index up to the first NUL; a pointer
    into the array is an index, and NULL is `None`. */
module StrSep {
  datatype Option<T> = None | Some(value: T)

  /** The C string that starts at index `s` of `text`: the characters before the first NUL. */
  function CStringAt(text: seq<char>, s: nat): seq<char>
    decreases |text| - s
  {
    if s >= |text| || text[s] == '\0' then [] else [text[s]] + CStringAt(text, s + 1)
  }

  /** `strpbrk(text + s, delim)` as an index: the first position from `s` on that holds a delimiter
      or the terminating NUL (the NUL is where `strpbrk` gives up and returns NULL). */
  function Scan(text: seq<char>, s: nat, delim: seq<char>): (j: nat)
    decreases |text| - s
    ensures s <= j
    ensures j < |text| ==> text[j] == '\0' || text[j] in delim
    ensures forall k :: s <= k < j && k < |text| ==> text[k] != '\0' && text[k] !in delim
  {
    if s >= |text| || text[s] == '\0' || text[s] in delim then s else Scan(text, s + 1, delim)
  }

  /** A NUL at or after `s`: the array holds a C string from `s` on. */
  predicate Terminated(text: seq<char>, s: nat) {
    exists k :: s <= k < |text| && text[k] == '\0'
  }

  /** The scan stops inside a terminated string. */
  lemma {:induction false} ScanInside(text: seq<char>, s: nat, delim: seq<char>)
    requires Terminated(text, s)
    ensures Scan(text, s, delim) < |text|
  {
    var k :| s <= k < |text| && text[k] == '\0';
    ScanBefore(text, s, delim, k);
  }

  lemma {:induction false} ScanBefore(text: seq<char>, s: nat, delim: seq<char>, k: nat)
    requires s <= k < |text| && text[k] == '\0'
    ensures Scan(text, s, delim) <= k
    decreases k - s
  {
    if s < k && text[s] != '\0' && text[s] !in delim {
      ScanBefore(text, s + 1, delim, k);
    }
  }

  /** Up to the stop of the scan there is neither a NUL nor a delimiter, so the C string from `s`
      runs at least to the stop, and ends there once the stop holds a NUL. */
  lemma {:induction false} CStringUpTo(text: seq<char>, s: nat, j: nat)
    requires s <= j < |text| && text[j] == '\0'
    requires forall k :: s <= k < j ==> text[k] != '\0'
    ensures CStringAt(text, s) == text[s..j]
    decreases j - s
  {
    if s < j {
      CStringUpTo(text, s + 1, j);
    }
  }

  /** Writing a NUL over the delimiter at `j` cuts the string from `s` in two: the token before it
      and the rest after it, which together with the delimiter make up the original string. */
  lemma SplitJoins(text: seq<char>, s: nat, delim: seq<char>)
    requires Terminated(text, s) && '\0' !in delim
    requires text[Scan(text, s, delim)] in delim
    ensures var j := Scan(text, s, delim);
            CStringAt(text, s) == CStringAt(text[j := '\0'], s) + [text[j]] + CStringAt(text, j + 1)
  {
    var j := Scan(text, s, delim);
    ScanInside(text, s, delim);
    var cut := text[j := '\0'];
    CStringUpTo(cut, s, j);
    JoinAt(text, s, j);
  }

  /** When nothing from `s` to before `j` is a NUL, the string from `s` is those characters followed
      by the string from `j`. */
  lemma {:induction false} JoinAt(text: seq<char>, s: nat, j: nat)
    requires s <= j < |text|
    requires forall k :: s <= k < j ==> text[k] != '\0'
    ensures CStringAt(text, s) == text[s..j] + CStringAt(text, j)
    decreases j - s
  {
    if s < j {
      JoinAt(text, s + 1, j);
      assert text[s..j] == [text[s]] + text[s + 1..j];
    }
  }

  /** `mystrsep(&stringp, delim)` with `*stringp == start`: returns `start`; when a delimiter
      follows, it is overwritten with NUL and the new `*stringp` is the index after it; when the
      string ends first, or `start` is NULL, the new `*stringp` is NULL and the array is unchanged. */
  method Separate(buf: array<char>, start: Option<nat>, delim: seq<char>) returns (token: Option<nat>, next: Option<nat>)
    requires start.Some? ==> Terminated(buf[..], start.value)
    requires '\0' !in delim
    modifies buf
    ensures token == start
    ensures start.None? ==> next.None? && buf[..] == old(buf[..])
    ensures start.Some? ==>
              var j := Scan(old(buf[..]), start.value, delim);
              j < buf.Length &&
              (old(buf[j]) == '\0' ==> next.None? && buf[..] == old(buf[..])) &&
              (old(buf[j]) in delim ==> next == Some(j + 1) && buf[..] == old(buf[..])[j := '\0'])
    ensures start.Some? ==>
              CStringAt(buf[..], start.value) == old(buf[..])[start.value..Scan(old(buf[..]), start.value, delim)]
  {
    token := start;
    if start.None? {
      return token, None;
    }
    var s := start.value;
    ScanInside(buf[..], s, delim);
    var p := Scan(buf[..], s, delim);
    if buf[p] == '\0' {
      next := None;
      CStringUpTo(buf[..], s, p);
    } else {
      buf[p] := '\0';
      next := Some(p + 1);
      CStringUpTo(buf[..], s, p);
    }
  }
}
