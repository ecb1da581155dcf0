/** The buffered sample formatter: slots of fixed width in one character buffer
    that is printed as a single C string. */
module Samples {
  const NUL := '\0'

  // ------------------------------------------------------------ C strings

  /** The C string that starts at position `p`. */
  function CString(b: seq<char>, p: nat): string
    decreases |b| - p
  {
    if p >= |b| || b[p] == NUL then "" else [b[p]] + CString(b, p + 1)
  }

  lemma CStringStep(b: seq<char>, p: nat)
    requires p < |b| && b[p] != NUL
    ensures CString(b, p) == [b[p]] + CString(b, p + 1)
  {
  }

  lemma {:induction false} CStringRun(b: seq<char>, p: nat, n: nat)
    requires p + n <= |b| && forall k | p <= k < p + n :: b[k] != NUL
    ensures CString(b, p) == b[p..p + n] + CString(b, p + n)
    decreases n
  {
    if n > 0 {
      var rest, tail := b[p + 1..p + n], CString(b, p + n);
      CStringRun(b, p + 1, n - 1);
      CStringStep(b, p);
      hide CString;
      assert CString(b, p + 1) == rest + tail by {
        assert p + 1 + (n - 1) == p + n;
      }
      assert b[p..p + n] == [b[p]] + rest;
      assert [b[p]] + (rest + tail) == [b[p]] + rest + tail;
    } else {
      assert b[p..p] == [];
      assert "" + CString(b, p) == CString(b, p);
    }
  }

  // ------------------------------------------------------------ what shows

  function Concat(texts: seq<string>): string {
    if texts == [] then "" else texts[0] + Concat(texts[1..])
  }

  /** The texts up to and including the first that does not fill its slot. */
  function Visible(texts: seq<string>, width: nat): string {
    if texts == [] then ""
    else if |texts[0]| < width then texts[0]
    else texts[0] + Visible(texts[1..], width)
  }

  /** `snprintf` into a slot: at most `width` characters. */
  function Cropped(text: string, width: nat): string {
    if |text| > width then text[..width] else text
  }

  ghost predicate Fits(texts: seq<string>, width: nat) {
    forall i | 0 <= i < |texts| :: 0 < |texts[i]| <= width && forall k | 0 <= k < |texts[i]| :: texts[i][k] != NUL
  }

  lemma {:induction false} ConcatNonEmpty(texts: seq<string>, width: nat)
    requires Fits(texts, width)
    ensures Concat(texts) == "" <==> texts == []
  {
    if texts != [] {
      assert 0 < |texts[0]|;
    }
  }

  /** Everything is shown exactly when every text but the last fills its slot. */
  lemma {:induction false} AllVisibleIff(texts: seq<string>, width: nat)
    requires Fits(texts, width)
    ensures Visible(texts, width) == Concat(texts)
       <==> forall i | 0 <= i < |texts| - 1 :: |texts[i]| == width
  {
    if texts != [] {
      var rest := texts[1..];
      assert forall i | 0 <= i < |rest| :: rest[i] == texts[i + 1];
      assert Fits(rest, width);
      AllVisibleIff(rest, width);
      ConcatNonEmpty(rest, width);
      assert texts[0] + Concat(rest) == Concat(texts);
      if |texts[0]| < width {
        assert Visible(texts, width) == texts[0];
        assert rest != [] ==> |Concat(texts)| > |texts[0]|;
        assert rest == [] ==> Concat(texts) == texts[0];
      } else {
        assert Visible(texts, width)[|texts[0]|..] == Visible(rest, width);
        assert Concat(texts)[|texts[0]|..] == Concat(rest);
        assert (forall i | 0 <= i < |texts| - 1 :: |texts[i]| == width)
          <==> (forall i | 0 <= i < |rest| - 1 :: |rest[i]| == width) by {
          assert forall i | 1 <= i < |texts| :: texts[i] == rest[i - 1];
        }
      }
    }
  }

  /** The short format: texts of at least 14 characters in slots of 14. */
  lemma {:induction false} ShortShowsAll(texts: seq<string>)
    requires Fits(texts, 14) && forall i | 0 <= i < |texts| :: |texts[i]| == 14
    ensures Visible(texts, 14) == Concat(texts)
  {
    AllVisibleIff(texts, 14);
  }

  /** The long format: texts of 21 characters in slots of 22. */
  lemma LongShowsFirst(texts: seq<string>)
    requires Fits(texts, 22) && |texts| > 1 && |texts[0]| == 21
    ensures Visible(texts, 22) == texts[0] != Concat(texts)
  {
    AllVisibleIff(texts, 22);
  }

  // ------------------------------------------------------------ the buffer

  function Head(i: nat, width: nat): nat {
    i * width
  }

  lemma HeadNext(i: nat, width: nat)
    ensures Head(i + 1, width) == Head(i, width) + width
  {
  }

  lemma {:induction false} HeadMono(i: nat, j: nat, width: nat)
    requires i <= j
    ensures Head(i, width) <= Head(j, width)
    ensures i < j ==> Head(i, width) + width <= Head(j, width)
  {
    if i < j {
      HeadMono(i, j - 1, width);
      HeadNext(j - 1, width);
    }
  }

  /** Slot `i` holds `text`, ended by NUL if it does not fill the slot. */
  ghost predicate Holds(b: seq<char>, i: nat, width: nat, text: string) {
    && Head(i, width) + width < |b| && |text| <= width
    && b[Head(i, width)..Head(i, width) + |text|] == text
    && (|text| < width ==> b[Head(i, width) + |text|] == NUL)
  }

  /** The texts are in the first slots, and all later slots look empty. */
  ghost predicate Stores(b: seq<char>, slots: nat, width: nat, texts: seq<string>) {
    && width > 0 && |b| == Head(slots, width) + 1 && |texts| <= slots && Fits(texts, width)
    && (forall i | 0 <= i < |texts| :: Holds(b, i, width, texts[i]))
    && (forall i | |texts| <= i <= slots :: Head(i, width) < |b| && b[Head(i, width)] == NUL)
  }

  lemma {:induction false} ShowsFrom(b: seq<char>, slots: nat, width: nat, texts: seq<string>, i: nat)
    requires Stores(b, slots, width, texts) && i <= |texts|
    ensures CString(b, Head(i, width)) == Visible(texts[i..], width)
    decreases |texts| - i
  {
    var p := Head(i, width);
    if i == |texts| {
      assert b[p] == NUL;
    } else {
      var t := texts[i];
      assert Holds(b, i, width, t);
      forall k | p <= k < p + |t| ensures b[k] != NUL {
        assert b[k] == b[p..p + |t|][k - p];
      }
      CStringRun(b, p, |t|);
      assert texts[i..][1..] == texts[i + 1..];
      if |t| == width {
        HeadNext(i, width);
        ShowsFrom(b, slots, width, texts, i + 1);
      } else {
        assert CString(b, p + |t|) == "";
      }
    }
  }

  /** Writing a text, cropped and terminated, into the first empty slot. */
  lemma {:induction false} WriteStores(b: seq<char>, b': seq<char>, slots: nat, width: nat, texts: seq<string>, text: string)
    requires Stores(b, slots, width, texts) && |texts| < slots
    requires 0 < |text| <= width && forall k | 0 <= k < |text| :: text[k] != NUL
    requires |b'| == |b|
    requires var p := Head(|texts|, width);
      && p + |text| < |b|
      && forall k | 0 <= k < |b| ::
           b'[k] == if p <= k < p + |text| then text[k - p] else if k == p + |text| then NUL else b[k]
    ensures Stores(b', slots, width, texts + [text])
  {
    var n, texts' := |texts|, texts + [text];
    var p := Head(n, width);
    HeadNext(n, width);
    HeadMono(n + 1, slots, width);
    forall i | 0 <= i < |texts'| ensures Holds(b', i, width, texts'[i]) {
      if i < n {
        HeadMono(i, n, width);
        assert Holds(b, i, width, texts[i]);
        var h := Head(i, width);
        assert b'[h..h + |texts[i]|] == b[h..h + |texts[i]|];
      } else {
        assert b'[p..p + |text|] == text;
      }
    }
    forall i | n + 1 <= i <= slots ensures Head(i, width) < |b'| && b'[Head(i, width)] == NUL {
      HeadMono(n + 1, i, width);
      HeadMono(i, slots, width);
    }
  }

  datatype FormatOutcome = Stored | Threw | Overrun

  class BufferedSampleFormatter {
    const bufSamples: nat
    const bufSampleSize: nat
    const buf: array<char>
    var currentBufLoc: nat
    ghost var texts: seq<string>     // formatted since the buffer was empty

    ghost predicate Valid()
      reads this, buf
    {
      Stores(buf[..], bufSamples, bufSampleSize, texts) && currentBufLoc == |texts|
    }

    constructor (bufSamples: nat, bufSampleSize: nat)
      requires bufSampleSize > 0
      ensures Valid() && texts == [] && fresh(buf)
      ensures this.bufSamples == bufSamples && this.bufSampleSize == bufSampleSize
    {
      this.bufSamples := bufSamples;
      this.bufSampleSize := bufSampleSize;
      buf := new char[bufSamples * bufSampleSize + 1](_ => NUL);
      currentBufLoc := 0;
      texts := [];
      new;
      forall i | 0 <= i <= bufSamples ensures Head(i, bufSampleSize) < buf.Length {
        HeadMono(i, bufSamples, bufSampleSize);
      }
    }

    /** `format`, given the full text of the value. It throws when the text does
        not fit, but the cropped text is in the buffer all the same. When all
        slots are used the original writes behind them, without a check. */
    method Format(text: string) returns (outcome: FormatOutcome)
      requires Valid()
      requires text != "" && forall k | 0 <= k < |text| :: text[k] != NUL
      modifies `currentBufLoc, `texts, buf
      ensures Valid()
      ensures outcome ==
        if old(currentBufLoc) >= bufSamples then Overrun
        else if |text| > bufSampleSize then Threw
        else Stored
      ensures texts == old(texts) + if outcome == Overrun then [] else [Cropped(text, bufSampleSize)]
    {
      hide Head;
      if currentBufLoc >= bufSamples {
        return Overrun;
      }
      var p := Head(currentBufLoc, bufSampleSize);
      HeadNext(currentBufLoc, bufSampleSize);
      HeadMono(currentBufLoc + 1, bufSamples, bufSampleSize);
      currentBufLoc := currentBufLoc + 1;
      ghost var before := buf[..];
      var n := if |text| > bufSampleSize then bufSampleSize else |text|;
      for i := 0 to n
        invariant forall k | 0 <= k < buf.Length ::
          buf[k] == if p <= k < p + i then text[k - p] else before[k]
        modifies buf
      {
        buf[p + i] := text[i];
      }
      buf[p + n] := NUL;
      assert |Cropped(text, bufSampleSize)| == n && forall k | 0 <= k < n :: Cropped(text, bufSampleSize)[k] == text[k];
      WriteStores(before, buf[..], bufSamples, bufSampleSize, texts, Cropped(text, bufSampleSize));
      texts := texts + [Cropped(text, bufSampleSize)];
      outcome := if |text| > bufSampleSize then Threw else Stored;
    }

    /** `output`: prints the C string and clears. */
    method Output() returns (out: string)
      requires Valid()
      modifies `currentBufLoc, `texts, buf
      ensures Valid() && texts == []
      ensures out == Visible(old(texts), bufSampleSize)
    {
      ShowsFrom(buf[..], bufSamples, bufSampleSize, texts, 0);
      assert texts[0..] == texts;
      out := CString(buf[..], 0);
      ClearBuf();
    }

    /** `clearBuf`: only the heads of the used slots are zeroed. */
    method ClearBuf()
      requires Valid()
      modifies `currentBufLoc, `texts, buf
      ensures Valid() && texts == []
    {
      hide Head;
      ghost var before := buf[..];
      forall i | 0 <= i <= bufSamples ensures Head(i, bufSampleSize) < buf.Length {
        HeadMono(i, bufSamples, bufSampleSize);
      }
      var i := 0;
      while i < bufSamples && buf[Head(i, bufSampleSize)] != NUL
        invariant 0 <= i <= |texts|
        invariant forall k | 0 <= k < i :: Head(k, bufSampleSize) < buf.Length && buf[Head(k, bufSampleSize)] == NUL
        invariant forall k | i <= k <= bufSamples ::
          Head(k, bufSampleSize) < buf.Length && buf[Head(k, bufSampleSize)] == before[Head(k, bufSampleSize)]
        modifies buf
      {
        assert buf[Head(i, bufSampleSize)] != NUL;
        forall k | i < k <= bufSamples ensures Head(k, bufSampleSize) != Head(i, bufSampleSize) {
          HeadMono(i, k, bufSampleSize);
        }
        forall k | 0 <= k < i ensures Head(k, bufSampleSize) != Head(i, bufSampleSize) {
          HeadMono(k, i, bufSampleSize);
        }
        buf[Head(i, bufSampleSize)] := NUL;
        i := i + 1;
      }
      UsedHeads(before, bufSamples, bufSampleSize, texts);
      currentBufLoc := 0;
      texts := [];
    }
  }

  /** A used slot never looks empty. */
  lemma UsedHeads(b: seq<char>, slots: nat, width: nat, texts: seq<string>)
    requires Stores(b, slots, width, texts)
    ensures forall i | 0 <= i < |texts| :: Head(i, width) < |b| && b[Head(i, width)] != NUL
  {
    forall i | 0 <= i < |texts| ensures Head(i, width) < |b| && b[Head(i, width)] != NUL {
      assert Holds(b, i, width, texts[i]);
      assert b[Head(i, width)] == b[Head(i, width)..Head(i, width) + |texts[i]|][0];
    }
  }
}
