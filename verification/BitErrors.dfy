/** Matching and correcting text that may have flipped bits. */
module BitErrors {
  import opened Bytes

  type Text = seq<bv8>

  /** Number of bits per tolerated error. */
  const BIT_ERROR_RATE := 8

  function Bit(x: bv8, mask: bv8): nat { if x & mask == 0 then 0 else 1 }

  function BitCount(x: bv8): nat {
    Bit(x, 1) + Bit(x, 2) + Bit(x, 4) + Bit(x, 8) + Bit(x, 16) + Bit(x, 32) + Bit(x, 64) + Bit(x, 128)
  }

  /** How many bits differ. */
  function Errors(l: bv8, r: bv8): nat { BitCount(l ^ r) }

  lemma ErrorsZero(l: bv8, r: bv8)
    ensures Errors(l, r) == 0 <==> l == r
    ensures Errors(l, r) <= 8
  {
    var x := l ^ r;
    assert x == 0 <==> l == r;
    assert x == 0 <==> x & 1 == 0 && x & 2 == 0 && x & 4 == 0 && x & 8 == 0
                       && x & 16 == 0 && x & 32 == 0 && x & 64 == 0 && x & 128 == 0;
  }

  /** Flipping one bit changes the count by one, so the count is the number of flips from zero. */
  lemma OneFlip(x: bv8, m: bv8)
    requires m == 1 || m == 2 || m == 4 || m == 8 || m == 16 || m == 32 || m == 64 || m == 128
    ensures BitCount(0) == 0
    ensures BitCount(x ^ m) == if x & m == 0 then BitCount(x) + 1 else BitCount(x) - 1
    ensures Errors(x, x ^ m) == 1
  {
    hide BitCount, Bit;
    FlipOne(x, m);
    FlipOne(0, m);
    assert x ^ (x ^ m) == m == 0 ^ m && 0 & m == 0;
    assert BitCount(0) == 0 by { CountOfNone(); }
  }

  lemma CountOfNone()
    ensures BitCount(0) == 0
  {
  }

  lemma FlipOne(x: bv8, m: bv8)
    requires m == 1 || m == 2 || m == 4 || m == 8 || m == 16 || m == 32 || m == 64 || m == 128
    ensures BitCount(x ^ m) == if x & m == 0 then BitCount(x) + 1 else BitCount(x) - 1
  {
    hide Bit;
    forall b | b == 1 || b == 2 || b == 4 || b == 8 || b == 16 || b == 32 || b == 64 || b == 128
      ensures Bit(x ^ m, b) == if b != m then Bit(x, b) else if x & m == 0 then 1 else 0
      ensures Bit(x, m) == if x & m == 0 then 0 else 1
    {
      FlippedBit(x, m, b);
    }
  }

  lemma FlippedBit(x: bv8, m: bv8, b: bv8)
    requires b == 1 || b == 2 || b == 4 || b == 8 || b == 16 || b == 32 || b == 64 || b == 128
    requires m == 1 || m == 2 || m == 4 || m == 8 || m == 16 || m == 32 || m == 64 || m == 128
    ensures Bit(x ^ m, b) == if b != m then Bit(x, b) else if x & m == 0 then 1 else 0
    ensures Bit(x, m) == if x & m == 0 then 0 else 1
  {
    assert b != m ==> (x ^ m) & b == x & b;
    assert b == m ==> ((x ^ m) & b == 0 <==> x & m != 0);
  }

  /** The Hamming distance in bits. */
  function Distance(a: Text, b: Text): nat
    requires |a| == |b|
  {
    if a == [] then 0 else Errors(a[0], b[0]) + Distance(a[1..], b[1..])
  }

  lemma {:induction false} DistanceZero(a: Text, b: Text)
    requires |a| == |b|
    ensures Distance(a, b) == 0 <==> a == b
  {
    if a != [] {
      ErrorsZero(a[0], b[0]);
      DistanceZero(a[1..], b[1..]);
      assert a == [a[0]] + a[1..] && b == [b[0]] + b[1..];
    }
  }

  lemma {:induction false} DistanceAppend(a: Text, b: Text, c: Text, d: Text)
    requires |a| == |b| && |c| == |d|
    ensures Distance(a + c, b + d) == Distance(a, b) + Distance(c, d)
  {
    if a == [] {
      assert a + c == c && b + d == d;
    } else {
      DistanceAppend(a[1..], b[1..], c, d);
      assert (a + c)[1..] == a[1..] + c && (b + d)[1..] == b[1..] + d;
    }
  }

  // ------------------------------------------------------------ one window

  /** How many bit errors the last `k` bytes may have. */
  function Allowed(k: nat): nat {
    (k * 8 + BIT_ERROR_RATE - (if k > 2 then 1 else 0)) / BIT_ERROR_RATE
  }

  lemma AllowedIs(k: nat)
    ensures Allowed(k) == if k > 2 then k else k + 1
  {
  }

  /** Every byte has at most two bit errors, and every suffix has at most as many as allowed. */
  predicate Accepts(l: Text, r: Text)
    requires |l| == |r|
  {
    && (forall i :: 0 <= i < |l| ==> Errors(l[i], r[i]) <= 2)
    && (forall i :: 0 <= i < |l| ==> Distance(l[i..], r[i..]) <= Allowed(|l| - i))
  }

  lemma DistanceFrom(l: Text, r: Text, i: nat)
    requires |l| == |r| && i < |l|
    ensures Distance(l[i..], r[i..]) == Errors(l[i], r[i]) + Distance(l[i + 1..], r[i + 1..])
  {
    assert l[i..][1..] == l[i + 1..] && r[i..][1..] == r[i + 1..];
  }

  /** Compares the needle with the console at `pos`, last byte first. It returns the distance exactly
      if the window is accepted. */
  method NumError(console: Text, pos: nat, needle: Text) returns (r: Option<nat>)
    requires 0 < |needle| && pos + |needle| <= |console|
    ensures var window := console[pos..pos + |needle|];
            r == if Accepts(window, needle) then Some(Distance(window, needle)) else None
  {
    hide Errors, Distance, Allowed;
    ghost var window := console[pos..pos + |needle|];
    var at := |needle|;
    DistanceZero(window[at..], needle[at..]);
    var count := 0;
    while at > 0
      invariant 0 <= at <= |needle| && count == Distance(window[at..], needle[at..])
      invariant forall i :: at <= i < |needle| ==> Errors(window[i], needle[i]) <= 2
      invariant forall i :: at <= i < |needle| ==> Distance(window[i..], needle[i..]) <= Allowed(|needle| - i)
    {
      at := at - 1;
      var num := Errors(console[pos + at], needle[at]);
      assert console[pos + at] == window[at];
      if num > (8 + BIT_ERROR_RATE) / BIT_ERROR_RATE { return None; }
      DistanceFrom(window, needle, at);
      count := count + num;
      if count > Allowed(|needle| - at) { return None; }
    }
    assert window[0..] == window && needle[0..] == needle;
    return Some(count);
  }

  lemma ExactIsAccepted(w: Text)
    ensures Accepts(w, w)
  {
    forall i | 0 <= i < |w|
      ensures Errors(w[i], w[i]) == 0 && Distance(w[i..], w[i..]) == 0
    {
      ErrorsZero(w[i], w[i]);
      DistanceZero(w[i..], w[i..]);
    }
  }

  // ------------------------------------------------------------ searching

  predicate FuzzyAt(console: Text, pos: nat, needle: Text) {
    pos + |needle| <= |console| && Accepts(console[pos..pos + |needle|], needle)
  }

  predicate ExactAt(console: Text, pos: nat, needle: Text) {
    pos + |needle| <= |console| && console[pos..pos + |needle|] == needle
  }

  /** The first accepted window from `start` on. */
  method Find(console: Text, needle: Text, start: nat) returns (r: Option<nat>)
    requires needle != []
    ensures r.None? ==> forall p: nat :: p >= start ==> !FuzzyAt(console, p, needle)
    ensures r.Some? ==> start <= r.value && r.value + |needle| <= |console| && FuzzyAt(console, r.value, needle)
                        && forall p: nat :: start <= p < r.value ==> !FuzzyAt(console, p, needle)
  {
    hide Accepts;
    if |needle| > |console| { return None; }
    var pos := start;
    while pos <= |console| - |needle|
      invariant start <= pos && forall p: nat :: start <= p < pos ==> !FuzzyAt(console, p, needle)
    {
      var e := NumError(console, pos, needle);
      if e.Some? { return Some(pos); }
      pos := pos + 1;
    }
    return None;
  }

  /** The last exact occurrence, or if there is none the last accepted window. */
  method RFind(console: Text, needle: Text) returns (r: Option<nat>)
    requires needle != []
    ensures r.Some? ==> FuzzyAt(console, r.value, needle)
    ensures (exists p: nat :: ExactAt(console, p, needle)) ==>
              && r.Some? && ExactAt(console, r.value, needle)
              && forall p: nat :: p > r.value ==> !ExactAt(console, p, needle)
    ensures (forall p: nat :: !ExactAt(console, p, needle)) ==>
              if r.Some? then forall p: nat :: p > r.value ==> !FuzzyAt(console, p, needle)
              else forall p: nat :: !FuzzyAt(console, p, needle)
  {
    hide Accepts;
    if |needle| > |console| { return None; }
    var pos := |console| - |needle| + 1;
    while pos > 0
      invariant 0 <= pos <= |console| - |needle| + 1
      invariant forall p: nat :: p >= pos ==> !ExactAt(console, p, needle)
    {
      pos := pos - 1;
      if console[pos..pos + |needle|] == needle {
        ExactIsAccepted(needle);
        return Some(pos);
      }
    }
    pos := |console| - |needle| + 1;
    while pos > 0
      invariant 0 <= pos <= |console| - |needle| + 1
      invariant forall p: nat :: p >= pos ==> !FuzzyAt(console, p, needle)
    {
      pos := pos - 1;
      var e := NumError(console, pos, needle);
      if e.Some? { return Some(pos); }
    }
    return None;
  }

  // ------------------------------------------------------------ correcting

  function Splice(text: Text, pos: nat, needle: Text): (r: Text)
    requires pos + |needle| <= |text|
    ensures |r| == |text|
  {
    text[..pos] + needle + text[pos + |needle|..]
  }

  /** The first accepted window from `start` on, or the length if there is none. */
  function FirstFuzzy(text: Text, needle: Text, start: nat): (p: nat)
    ensures p < |text| ==> start <= p && FuzzyAt(text, p, needle)
    ensures p < |text| || p == |text|
    decreases |text| - start
  {
    if start >= |text| then |text|
    else if FuzzyAt(text, start, needle) then start
    else FirstFuzzy(text, needle, start + 1)
  }

  lemma {:induction false} FirstFuzzyIs(text: Text, needle: Text, start: nat, p: nat)
    requires start <= p <= |text| && (p < |text| ==> FuzzyAt(text, p, needle))
    requires forall q: nat :: start <= q < p ==> !FuzzyAt(text, q, needle)
    ensures FirstFuzzy(text, needle, start) == p
    decreases p - start
  {
    hide FuzzyAt;
    if start < p {
      FirstFuzzyIs(text, needle, start + 1, p);
    }
  }

  /** The text with the first accepted window from `start` on replaced by the needle, then the first one
      behind that, and so on. */
  function Corrected(text: Text, needle: Text, start: nat): Text
    requires needle != []
    decreases |text| - start
  {
    var p := FirstFuzzy(text, needle, start);
    if p == |text| then text else Corrected(Splice(text, p, needle), needle, p + |needle|)
  }

  lemma NothingToCorrect(text: Text, needle: Text, start: nat)
    requires needle != [] && start <= |text| && forall p: nat :: p >= start ==> !FuzzyAt(text, p, needle)
    ensures Corrected(text, needle, start) == text
  {
    hide FuzzyAt;
    FirstFuzzyIs(text, needle, start, |text|);
  }

  lemma NoRoom(text: Text, needle: Text, start: nat)
    requires needle != [] && start + |needle| > |text|
    ensures forall p: nat :: p >= start ==> !FuzzyAt(text, p, needle)
  {
  }

  lemma CorrectsFirst(text: Text, needle: Text, start: nat, at: nat)
    requires needle != [] && start <= at && at + |needle| <= |text| && FuzzyAt(text, at, needle)
    requires forall p: nat :: start <= p < at ==> !FuzzyAt(text, p, needle)
    ensures Corrected(text, needle, start) == Corrected(Splice(text, at, needle), needle, at + |needle|)
    ensures text[at..at + |needle|] == needle ==> Splice(text, at, needle) == text
  {
    hide FuzzyAt;
    FirstFuzzyIs(text, needle, start, at);
  }

  /** Replaces accepted windows by the needle, left to right and without overlap. The length stays, the
      result is true exactly if the text changed, and the flipped bits are bounded: for a needle longer
      than two bytes there are no more of them than the text has bytes. */
  method CorrectForBitError(reason: Text, needle: Text) returns (corrected: bool, text: Text)
    requires needle != []
    ensures text == Corrected(reason, needle, 0) && |text| == |reason|
    ensures corrected <==> text != reason
    ensures |needle| * Distance(reason, text) <= Allowed(|needle|) * |reason|
    ensures |needle| > 2 ==> Distance(reason, text) <= |reason|
    ensures (forall p: nat :: !FuzzyAt(reason, p, needle)) ==> text == reason
  {
    hide Distance, Allowed, Splice, FuzzyAt, Corrected;
    text, corrected := reason, false;
    DistanceZero(reason, reason);
    if |reason| < |needle| {
      NoRoom(reason, needle, 0);
      NothingToCorrect(reason, needle, 0);
      return;
    }
    var pos := 0;
    while pos <= |reason| - |needle|
      invariant 0 <= pos <= |reason| && |text| == |reason| && text[pos..] == reason[pos..]
      invariant corrected <==> text != reason
      invariant Corrected(text, needle, pos) == Corrected(reason, needle, 0)
      invariant |needle| * Distance(reason, text) <= Allowed(|needle|) * pos
      invariant (forall p: nat :: !FuzzyAt(reason, p, needle)) ==> text == reason
      decreases |reason| - pos
    {
      var found := Find(text, needle, pos);
      if found.None? {
        NothingToCorrect(text, needle, pos);
        break;
      }
      var at := found.value;
      CorrectsFirst(text, needle, pos, at);
      WindowOf(reason, text, pos, at, |needle|);
      SameWindow(reason, text, at, needle);
      if text[at..at + |needle|] != needle {
        CorrectWindow(reason, text, at, needle);
        MoreRoom(|needle|, Distance(reason, text), Distance(text[at..at + |needle|], needle), pos, at);
        corrected := true;
        text := Splice(text, at, needle);
      } else {
        MoreRoom(|needle|, Distance(reason, text), 0, pos, at);
      }
      pos := at + |needle|;
    }
    if pos + |needle| > |reason| {
      NoRoom(text, needle, pos);
      NothingToCorrect(text, needle, pos);
    }
    Total(|needle|, Distance(reason, text), pos, |reason|);
  }

  lemma SameWindow(old_: Text, text: Text, at: nat, needle: Text)
    requires |text| == |old_| && FuzzyAt(text, at, needle) && needle != []
    requires text[at..at + |needle|] == old_[at..at + |needle|]
    ensures FuzzyAt(old_, at, needle) && Distance(text[at..at + |needle|], needle) <= Allowed(|needle|)
  {
    var w := text[at..at + |needle|];
    assert w[0..] == w && needle[0..] == needle;
  }

  lemma WindowOf(old_: Text, text: Text, pos: nat, at: nat, n: nat)
    requires |text| == |old_| && pos <= at && at + n <= |text| && text[pos..] == old_[pos..]
    ensures text[at..at + n] == old_[at..at + n] && text[at..] == old_[at..] && text[at + n..] == old_[at + n..]
  {
    assert forall i :: pos <= i < |text| ==> text[i] == text[pos..][i - pos] && old_[i] == old_[pos..][i - pos];
  }

  /** Correcting a window that was not touched before adds exactly its errors. */
  lemma CorrectWindow(old_: Text, text: Text, at: nat, needle: Text)
    requires |text| == |old_| && at + |needle| <= |text| && text[at..] == old_[at..]
             && text[at..at + |needle|] != needle
    ensures var new_ := Splice(text, at, needle);
            && Distance(old_, new_) == Distance(old_, text) + Distance(text[at..at + |needle|], needle)
            && new_ != old_ && new_[at + |needle|..] == old_[at + |needle|..]
  {
    hide Distance;
    var n := |needle|;
    var new_ := Splice(text, at, needle);
    var a, w, b := old_[..at], text[at..at + n], text[at + n..];
    WindowOf(old_, text, at, at, n);
    Cut(old_, at, n);
    Cut(text, at, n);
    ThreePieces(a, text[..at], w, needle, b);
    ThreePieces(a, text[..at], w, w, b);
    DistanceZero(w, w);
    Pieces(text[..at], needle, b);
  }

  lemma Cut(s: Text, at: nat, n: nat)
    requires at + n <= |s|
    ensures s[..at] + s[at..at + n] + s[at + n..] == s
  {
  }

  lemma Pieces(a: Text, x: Text, b: Text)
    ensures var s := a + x + b;
            s[|a|..|a| + |x|] == x && s[|a| + |x|..] == b
  {
  }

  lemma ThreePieces(a: Text, a': Text, w: Text, x: Text, b: Text)
    requires |a| == |a'| && |w| == |x|
    ensures Distance(a + w + b, a' + x + b) == Distance(a, a') + Distance(w, x)
  {
    hide Distance;
    DistanceAppend(a + w, a' + x, b, b);
    DistanceAppend(a, a', w, x);
    DistanceZero(b, b);
  }

  lemma MoreRoom(n: nat, d: nat, more: nat, pos: nat, at: nat)
    requires n * d <= Allowed(n) * pos && pos <= at && more <= Allowed(n)
    ensures n * (d + more) <= Allowed(n) * (at + n)
  {
    hide Allowed;
    assert Allowed(n) * pos <= Allowed(n) * at;
    assert n * more <= n * Allowed(n);
  }

  lemma Total(n: nat, d: nat, pos: nat, size: nat)
    requires n > 0 && n * d <= Allowed(n) * pos && pos <= size
    ensures n * d <= Allowed(n) * size
    ensures n > 2 ==> d <= size
  {
    AllowedIs(n);
    assert Allowed(n) * pos <= Allowed(n) * size;
    assert d >= size + 1 ==> n * d >= n * (size + 1);
  }
}
