/** The string operations the encryption layer relies on: splitting, joining and stripping. */
module Text {
  /** What strips as whitespace. */
  predicate IsSpace(c: char) {
    '\t' <= c <= '\r' || '\U{1C}' <= c <= ' ' || c == '\U{85}' || c == '\U{A0}' || c == '\U{1680}'
    || '\U{2000}' <= c <= '\U{200A}' || c == '\U{2028}' || c == '\U{2029}' || c == '\U{202F}' || c == '\U{205F}'
    || c == '\U{3000}'
  }

  predicate Blank(s: string) {
    forall k :: 0 <= k < |s| ==> IsSpace(s[k])
  }

  function StripLeft(s: string): string {
    if s == "" || !IsSpace(s[0]) then s else StripLeft(s[1..])
  }

  function StripRight(s: string): string {
    if s == "" || !IsSpace(s[|s| - 1]) then s else StripRight(s[..|s| - 1])
  }

  function Strip(s: string): string {
    StripRight(StripLeft(s))
  }

  /** The position of the first `sep`, or the length. */
  function Cut(s: string, sep: char): (n: nat)
    ensures n <= |s|
    ensures n < |s| ==> s[n] == sep
    ensures forall k :: 0 <= k < n ==> s[k] != sep
  {
    if s == "" || s[0] == sep then 0 else 1 + Cut(s[1..], sep)
  }

  ghost predicate Without(s: string, sep: char) {
    forall k :: 0 <= k < |s| ==> s[k] != sep
  }

  function Split(s: string, sep: char): seq<string>
    decreases |s|
  {
    var n := Cut(s, sep);
    if n == |s| then [s] else [s[..n]] + Split(s[n + 1..], sep)
  }

  /** At most `times` cuts; the last part keeps any further separators. */
  function SplitAtMost(s: string, sep: char, times: nat): seq<string>
    decreases |s|
  {
    var n := Cut(s, sep);
    if times == 0 || n == |s| then [s] else [s[..n]] + SplitAtMost(s[n + 1..], sep, times - 1)
  }

  function Join(parts: seq<string>, sep: char): string {
    if parts == [] then "" else if |parts| == 1 then parts[0] else parts[0] + [sep] + Join(parts[1..], sep)
  }

  // ---- cutting ----

  lemma CutAfter(head: string, sep: char, tail: string)
    requires Without(head, sep)
    ensures Cut(head + [sep] + tail, sep) == |head|
    ensures (head + [sep] + tail)[..|head|] == head && (head + [sep] + tail)[|head| + 1..] == tail
    ensures Cut(head, sep) == |head|
  {
    var s := head + [sep] + tail;
    var n := Cut(s, sep);
    assert s[|head|] == sep;
    assert forall k :: 0 <= k < |head| ==> s[k] == head[k];
  }

  lemma {:induction false} SplitJoin(parts: seq<string>, sep: char)
    requires parts != [] && forall k :: 0 <= k < |parts| ==> Without(parts[k], sep)
    ensures Split(Join(parts, sep), sep) == parts
  {
    if |parts| == 1 {
      CutAfter(parts[0], sep, "");
    } else {
      CutAfter(parts[0], sep, Join(parts[1..], sep));
      SplitJoin(parts[1..], sep);
    }
  }

  /** Only the last part may contain separators when there are as many cuts as there are separators between parts. */
  lemma {:induction false} SplitAtMostJoin(parts: seq<string>, sep: char)
    requires parts != [] && forall k :: 0 <= k < |parts| - 1 ==> Without(parts[k], sep)
    ensures SplitAtMost(Join(parts, sep), sep, |parts| - 1) == parts
    decreases |parts|
  {
    if |parts| == 1 {
    } else {
      SplitAtMostJoin(parts[1..], sep);
      SplitAtMostMore(parts, parts[0], parts[1..], sep);
    }
  }

  lemma SplitAtMostMore(parts: seq<string>, head: string, rest: seq<string>, sep: char)
    requires rest != [] && Without(head, sep) && parts == [head] + rest
    requires SplitAtMost(Join(rest, sep), sep, |rest| - 1) == rest
    ensures SplitAtMost(Join(parts, sep), sep, |parts| - 1) == parts
  {
    JoinFirst(head, rest, sep);
    var whole := Join(parts, sep);
    SplitAtMostFirst(whole, head, sep, Join(rest, sep), |rest|);
  }

  lemma SplitAtMostFirst(s: string, head: string, sep: char, tail: string, times: nat)
    requires Without(head, sep) && s == head + [sep] + tail && times > 0
    ensures SplitAtMost(s, sep, times) == [head] + SplitAtMost(tail, sep, times - 1)
  {
    CutAfter(head, sep, tail);
  }

  lemma SplitFirst(s: string, head: string, sep: char, tail: string)
    requires Without(head, sep) && s == head + [sep] + tail
    ensures Split(s, sep) == [head] + Split(tail, sep)
  {
    CutAfter(head, sep, tail);
  }

  lemma Reassociate<T>(head: seq<T>, a: seq<T>, tail: seq<T>, b: seq<T>, t: seq<T>)
    ensures head + a + tail + b + t == head + a + (tail + b + t)
  {
  }

  lemma {:induction false} SplitAppend(s: string, sep: char, t: string)
    ensures Split(s + [sep] + t, sep) == Split(s, sep) + Split(t, sep)
    decreases |s|
  {
    var n := Cut(s, sep);
    if n == |s| {
      SplitFirst(s + [sep] + t, s, sep, t);
    } else {
      var head, tail := s[..n], s[n + 1..];
      SplitFirst(s, head, sep, tail);
      Reassociate(head, [sep], tail, [sep], t);
      var longer := tail + [sep] + t;
      SplitFirst(s + [sep] + t, head, sep, longer);
      SplitAppend(tail, sep, t);
      Prepend(head, Split(longer, sep), Split(tail, sep), Split(t, sep));
    }
  }

  lemma Prepend<T>(x: T, all: seq<T>, a: seq<T>, b: seq<T>)
    requires all == a + b
    ensures [x] + all == [x] + a + b
  {
  }

  /** The parts of a split are free of the separator and join to the text. */
  lemma {:induction false} JoinSplit(s: string, sep: char)
    ensures Split(s, sep) != [] && Join(Split(s, sep), sep) == s
    ensures forall k :: 0 <= k < |Split(s, sep)| ==> Without(Split(s, sep)[k], sep)
    decreases |s|
  {
    var n := Cut(s, sep);
    if n == |s| {
    } else {
      JoinSplit(s[n + 1..], sep);
      JoinFirst(s[..n], Split(s[n + 1..], sep), sep);
      assert s == s[..n] + [sep] + s[n + 1..];
    }
  }

  lemma JoinFirst(head: string, parts: seq<string>, sep: char)
    requires parts != []
    ensures Join([head] + parts, sep) == head + [sep] + Join(parts, sep)
  {
    assert ([head] + parts)[1..] == parts;
  }

  /** At most so many cuts: the parts join to the text, and only the last of all of them may keep separators. */
  ghost predicate CutInto(s: string, parts: seq<string>, sep: char, times: nat) {
    && 1 <= |parts| <= times + 1 && Join(parts, sep) == s
    && (forall k :: 0 <= k < |parts| - 1 ==> Without(parts[k], sep))
    && (|parts| <= times ==> Without(parts[|parts| - 1], sep))
  }

  lemma {:induction false} JoinSplitAtMost(s: string, sep: char, times: nat)
    ensures CutInto(s, SplitAtMost(s, sep, times), sep, times)
    decreases |s|
  {
    var n := Cut(s, sep);
    if times == 0 || n == |s| {
      OnePart(s, sep, times);
    } else {
      JoinSplitAtMost(s[n + 1..], sep, times - 1);
      OneMorePart(s, s[..n], s[n + 1..], SplitAtMost(s[n + 1..], sep, times - 1), sep, times);
    }
  }

  lemma OnePart(s: string, sep: char, times: nat)
    requires times == 0 || Without(s, sep)
    ensures CutInto(s, [s], sep, times)
  {
  }

  lemma OneMorePart(s: string, head: string, tail: string, parts: seq<string>, sep: char, times: nat)
    requires times > 0 && CutInto(tail, parts, sep, times - 1) && Without(head, sep) && s == head + [sep] + tail
    ensures CutInto(s, [head] + parts, sep, times)
  {
    JoinFirst(head, parts, sep);
  }

  // ---- stripping ----

  /** Begins and ends with something that is not whitespace. */
  ghost predicate Tight(s: string) {
    s != "" && !IsSpace(s[0]) && !IsSpace(s[|s| - 1])
  }

  lemma {:induction false} StripLeftBlank(w: string, s: string)
    requires Blank(w) && s != "" && !IsSpace(s[0])
    ensures StripLeft(w + s) == s
    decreases |w|
  {
    if w == "" {
      assert w + s == s;
    } else {
      assert (w + s)[1..] == w[1..] + s;
      StripLeftBlank(w[1..], s);
    }
  }

  lemma {:induction false} StripRightBlank(s: string, w: string)
    requires Blank(w) && s != "" && !IsSpace(s[|s| - 1])
    ensures StripRight(s + w) == s
    decreases |w|
  {
    if w == "" {
      assert s + w == s;
    } else {
      var m := |w| - 1;
      assert (s + w)[..|s + w| - 1] == s + w[..m];
      StripRightBlank(s, w[..m]);
    }
  }

  lemma StripPadded(w: string, s: string, w': string)
    requires Blank(w) && Tight(s) && Blank(w')
    ensures Strip(w + s + w') == s
  {
    assert w + s + w' == w + (s + w');
    StripLeftBlank(w, s + w');
    StripRightBlank(s, w');
  }

  lemma {:induction false} StripLeftKeeps(s: string, k: nat)
    requires k < |s| && !IsSpace(s[k])
    ensures StripLeft(s) != "" && !IsSpace(StripLeft(s)[0])
    decreases |s|
  {
    if IsSpace(s[0]) {
      StripLeftKeeps(s[1..], k - 1);
    }
  }

  lemma {:induction false} StripRightKeeps(s: string)
    requires s != "" && !IsSpace(s[0])
    ensures StripRight(s) != ""
    decreases |s|
  {
    if IsSpace(s[|s| - 1]) {
      StripRightKeeps(s[..|s| - 1]);
    }
  }

  /** A text with anything but whitespace in it does not strip to nothing. */
  lemma StripKeeps(s: string, k: nat)
    requires k < |s| && !IsSpace(s[k])
    ensures Strip(s) != ""
  {
    StripLeftKeeps(s, k);
    StripRightKeeps(StripLeft(s));
  }

  lemma {:induction false} StripLeftTakes(s: string) returns (w: string)
    ensures s == w + StripLeft(s) && Blank(w)
    ensures StripLeft(s) == "" || !IsSpace(StripLeft(s)[0])
    decreases |s|
  {
    if s == "" || !IsSpace(s[0]) {
      w := "";
    } else {
      w := StripLeftTakes(s[1..]);
      w := [s[0]] + w;
    }
  }

  lemma {:induction false} StripRightTakes(s: string) returns (w: string)
    ensures s == StripRight(s) + w && Blank(w)
    ensures StripRight(s) == "" || !IsSpace(StripRight(s)[|StripRight(s)| - 1])
    decreases |s|
  {
    if s == "" || !IsSpace(s[|s| - 1]) {
      w := "";
    } else {
      var m := |s| - 1;
      w := StripRightTakes(s[..m]);
      assert s == s[..m] + [s[m]];
      w := w + [s[m]];
    }
  }

  /** Stripping takes whitespace off both ends, and all of it. */
  lemma StripTakes(s: string) returns (before: string, after: string)
    ensures s == before + Strip(s) + after && Blank(before) && Blank(after)
    ensures Strip(s) == "" || Tight(Strip(s))
  {
    before := StripLeftTakes(s);
    after := StripRightTakes(StripLeft(s));
    if Strip(s) != "" {
      assert StripLeft(s)[0] == Strip(s)[0];
    }
    assert s == before + (Strip(s) + after);
  }
}
