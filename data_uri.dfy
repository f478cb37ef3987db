/**
  Recognising an embedded SVG data URI and taking out its payload the way the extraction loop
  does it: `src.startsWith("data:image/svg+xml;base64,")`, then `src.split(",")[1]`.
*/
module DataUri {
  import opened Wrappers

  /** The one prefix that marks a qualifying `src`, matched case-sensitively. */
  const Prefix: string := "data:image/svg+xml;base64,"

  /** `String.startsWith(Prefix)`. */
  predicate Qualifies(src: string)
  {
    |Prefix| <= |src| && src[..|Prefix|] == Prefix
  }

  /** The position of the first comma in `s`. */
  function FirstComma(s: string): (i: nat)
    requires ',' in s
    ensures i < |s| && s[i] == ',' && ',' !in s[..i]
  {
    if s[0] == ',' then 0
    else
      assert ',' in s[1..] by { var k :| 0 <= k < |s| && s[k] == ','; assert s[1..][k - 1] == ','; }
      var j := FirstComma(s[1..]);
      assert s[..j + 1] == [s[0]] + s[1..][..j];
      j + 1
  }

  /** The text before the first comma (all of `s` when it has none). */
  function FirstField(s: string): string
  {
    if ',' in s then s[..FirstComma(s)] else s
  }

  /** The first field is the longest comma-free prefix: it has no comma, and a comma follows
      it unless it is the whole of `s`. */
  lemma FirstFieldEndsAtComma(s: string)
    ensures var f := FirstField(s);
            && ',' !in f && f <= s
            && (|f| < |s| ==> s[|f|] == ',')
  {
  }

  /** All the comma-separated fields of `s`, empty ones included. */
  function Fields(s: string): (r: seq<string>)
    ensures |r| >= 1 && r[0] == FirstField(s)
    decreases |s|
  {
    if ',' in s then
      var i := FirstComma(s);
      [s[..i]] + Fields(s[i + 1..])
    else [s]
  }

  /** No field holds a comma. */
  lemma {:induction false} FieldsHaveNoComma(s: string)
    ensures forall k :: 0 <= k < |Fields(s)| ==> ',' !in Fields(s)[k]
    decreases |s|
  {
    if ',' in s {
      var i := FirstComma(s);
      var t := s[i + 1..];
      FieldsHaveNoComma(t);
      var fs := Fields(s);
      assert fs == [s[..i]] + Fields(t);
      forall k | 0 <= k < |fs| ensures ',' !in fs[k] {
        if k > 0 { assert fs[k] == Fields(t)[k - 1]; }
      }
    }
  }

  /** The fields joined again with commas between them. */
  function Join(r: seq<string>): string
    requires |r| >= 1
  {
    if |r| == 1 then r[0] else r[0] + "," + Join(r[1..])
  }

  /** Splitting loses nothing: joining the fields gives the string back. */
  lemma {:induction false} JoinFields(s: string)
    ensures Join(Fields(s)) == s
    decreases |s|
  {
    if ',' in s {
      var i := FirstComma(s);
      var t := s[i + 1..];
      var fs := Fields(s);
      assert fs == [s[..i]] + Fields(t);
      assert fs[1..] == Fields(t);
      JoinFields(t);
      assert Join(fs) == s[..i] + "," + t;
      SplitAround(s, i);
    }
  }

  /** A sequence is what lies before position `i`, the element there, and what follows. */
  lemma SplitAround<T>(s: seq<T>, i: nat)
    requires i < |s|
    ensures s == s[..i] + [s[i]] + s[i + 1..]
  {
  }

  /** The fields with the trailing empty ones removed. */
  function DropTrailingEmpty(r: seq<string>): (d: seq<string>)
    ensures |d| <= |r|
    decreases |r|
  {
    if r == [] then []
    else if r[|r| - 1] == "" then DropTrailingEmpty(r[..|r| - 1])
    else r
  }

  /** What is dropped is exactly the run of empty fields at the end: the result is a prefix
      of the fields, it does not end with an empty field, and every field after it is empty. */
  lemma {:induction false} TrailingEmptyDropped(r: seq<string>)
    ensures var d := DropTrailingEmpty(r);
            && d <= r
            && (d == [] || d[|d| - 1] != "")
            && (forall k :: |d| <= k < |r| ==> r[k] == "")
    decreases |r|
  {
    if r != [] && r[|r| - 1] == "" {
      var init := r[..|r| - 1];
      TrailingEmptyDropped(init);
      var d := DropTrailingEmpty(init);
      assert d <= init;
      forall k | |d| <= k < |r| ensures r[k] == "" {
        if k < |init| { assert r[k] == init[k]; }
      }
    }
  }

  /** Java's `s.split(",")`: the input itself when it has no comma, otherwise every field with
      the trailing empty fields removed (so the result may even be empty). */
  function JavaSplit(s: string): seq<string>
  {
    if ',' in s then DropTrailingEmpty(Fields(s)) else [s]
  }

  /** `src.split(",")[1]`, or `None` where that index is out of bounds and the JVM throws an
      `ArrayIndexOutOfBoundsException`. */
  function PayloadOf(src: string): Option<string>
  {
    var f := JavaSplit(src);
    if |f| > 1 then Some(f[1]) else None
  }

  /** Every field of `s` is empty exactly when `s` consists of commas only. */
  lemma FieldsAllEmpty(s: string)
    ensures (forall k :: 0 <= k < |Fields(s)| ==> Fields(s)[k] == "")
        <==> (forall j :: 0 <= j < |s| ==> s[j] == ',')
  {
    if forall j :: 0 <= j < |s| ==> s[j] == ',' {
      CommasGiveEmptyFields(s);
    } else if forall k :: 0 <= k < |Fields(s)| ==> Fields(s)[k] == "" {
      EmptyFieldsGiveCommas(s);
    }
  }

  lemma {:induction false} CommasGiveEmptyFields(s: string)
    requires forall j :: 0 <= j < |s| ==> s[j] == ','
    ensures forall k :: 0 <= k < |Fields(s)| ==> Fields(s)[k] == ""
    decreases |s|
  {
    if s != [] {
      assert s[0] == ',';
      var t := s[1..];
      assert forall j :: 0 <= j < |t| ==> t[j] == s[j + 1];
      CommasGiveEmptyFields(t);
      assert FirstComma(s) == 0;
      var fs := Fields(s);
      assert fs == [s[..0]] + Fields(t);
      forall k | 0 <= k < |fs| ensures fs[k] == "" {
        if k > 0 { assert fs[k] == Fields(t)[k - 1]; }
      }
    }
  }

  lemma {:induction false} EmptyFieldsGiveCommas(s: string)
    requires forall k :: 0 <= k < |Fields(s)| ==> Fields(s)[k] == ""
    ensures forall j :: 0 <= j < |s| ==> s[j] == ','
    decreases |s|
  {
    var fs := Fields(s);
    if ',' in s {
      var i := FirstComma(s);
      var t := s[i + 1..];
      assert fs == [s[..i]] + Fields(t);
      assert fs[0] == s[..i] == "";
      forall k | 0 <= k < |Fields(t)| ensures Fields(t)[k] == "" {
        assert Fields(t)[k] == fs[k + 1];
      }
      EmptyFieldsGiveCommas(t);
      forall j | 0 <= j < |s| ensures s[j] == ',' {
        if j > 0 { assert s[j] == t[j - 1]; }
      }
    } else {
      assert fs[0] == s;
    }
  }

  /** What the loop takes out of a qualifying `src`.  With `rest` the text after the prefix:
      the payload is missing (and the JVM throws) exactly when `rest` is nothing but commas;
      otherwise it is the text of `rest` up to its first comma, i.e. strictly between the first
      and the second comma of `src`. */
  lemma PayloadOfQualifying(src: string)
    requires Qualifies(src)
    ensures var rest := src[|Prefix|..];
      && (PayloadOf(src).None? <==> forall j :: 0 <= j < |rest| ==> rest[j] == ',')
      && (PayloadOf(src).Some? ==> PayloadOf(src).value == FirstField(rest))
  {
    var rest := src[|Prefix|..];
    var head := Prefix[..|Prefix| - 1];
    assert ',' !in head;
    assert src == head + "," + rest;
    assert src[|head|] == ',';
    assert ',' in src;
    var i := FirstComma(src);
    assert i == |head|;
    assert src[..i] == head;
    assert src[i + 1..] == rest;
    var fs := Fields(src);
    assert fs == [head] + Fields(rest);
    var d := DropTrailingEmpty(fs);
    TrailingEmptyDropped(fs);
    assert JavaSplit(src) == d;
    assert |d| >= 1 by { assert fs[0] == head != ""; }
    FieldsAllEmpty(rest);
    var g := Fields(rest);
    if |d| > 1 {
      assert d[1] == fs[1] == g[0] == FirstField(rest);
    }
    if |d| <= 1 {
      forall k | 0 <= k < |g| ensures g[k] == "" {
        assert fs[k + 1] == g[k];
      }
    } else {
      assert fs[|d| - 1] != "";
      assert g[|d| - 2] != "";
    }
  }

  /** When nothing after the prefix is a comma, and something follows it, the payload is just
      the `src` with the prefix removed. */
  lemma PayloadWithoutComma(src: string)
    requires Qualifies(src)
    requires |src| > |Prefix| && ',' !in src[|Prefix|..]
    ensures PayloadOf(src) == Some(src[|Prefix|..])
  {
    var rest := src[|Prefix|..];
    PayloadOfQualifying(src);
    assert rest[0] != ',';
  }

  /** The bare prefix has no payload: `split(",")` gives one field and index 1 throws. */
  lemma BarePrefixThrows()
    ensures Qualifies(Prefix) && PayloadOf(Prefix).None?
  {
    PayloadOfQualifying(Prefix);
  }

  /** The first comma of `p + "," + q` is the one after `p` when `p` has none. */
  lemma FirstFieldBeforeComma(p: string, q: string)
    requires ',' !in p
    ensures FirstField(p + "," + q) == p
  {
    var s := p + "," + q;
    assert s[|p|] == ',';
    var i := FirstComma(s);
    assert i == |p|;
    assert s[..|p|] == p;
  }

  /** A second comma ends the payload: of "data:image/svg+xml;base64,<p>,<q>" only `p` is
      decoded, whatever `q` holds. */
  lemma SecondCommaEndsPayload(p: string, q: string)
    requires p != "" && ',' !in p
    ensures PayloadOf(Prefix + p + "," + q) == Some(p)
  {
    var rest := p + "," + q;
    var src := Prefix + p + "," + q;
    assert src == Prefix + rest;
    assert src[..|Prefix|] == Prefix;
    assert src[|Prefix|..] == rest;
    PayloadOfQualifying(src);
    assert rest[0] == p[0] != ',';
    FirstFieldBeforeComma(p, q);
  }
}
