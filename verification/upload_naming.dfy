/**
 How an uploaded file is admitted and named on disk: the type filter on
 the declared MIME type, the size limit, and the stored file name
 `<Date.now()>_<original name with every run of white space replaced by _>`.
 The clock reading is a parameter.
 */
module UploadNaming {
  import opened JsText
  import opened Records

  /** The two spreadsheet MIME types the filter lets through. */
  const XlsxMime: string := "application/vnd.openxmlformats-officedocument.spreadsheetml.sheet"
  const XlsMime: string := "application/vnd.ms-excel"
  const AllowedTypes: seq<string> := [XlsxMime, XlsMime]

  /** The message of the error the filter raises for any other type. */
  const WrongTypeMessage: string := "Apenas arquivos Excel (.xlsx, .xls) são permitidos!"

  /** The upload size limit, 10 MB. */
  const MaxFileSize: nat := 10 * 1024 * 1024

  datatype FilterOutcome = Accept | Reject(message: string)

  /** `allowedTypes.includes(file.mimetype)`: exact, case-sensitive match. */
  function FileFilter(mime: string): (o: FilterOutcome)
    ensures o.Accept? <==> (mime == XlsxMime || mime == XlsMime)
    ensures o.Reject? ==> o.message == WrongTypeMessage
  {
    if mime in AllowedTypes then Accept else Reject(WrongTypeMessage)
  }

  /** A file of `size` bytes stays within the limit. */
  predicate WithinSizeLimit(size: nat) {
    size <= MaxFileSize
  }

  /** `replace(/\s+/g, '_')`, written as a scan that remembers whether the
      previous character was white space (`inRun`): the first white-space
      character of a run becomes `_`, the rest of the run is dropped. */
  function SanitiseFrom(s: string, inRun: bool): (r: string)
    ensures NoSpace(r)
    ensures |r| <= |s|
    decreases |s|
  {
    if |s| == 0 then []
    else if IsSpace(s[0]) then
      (if inRun then [] else "_") + SanitiseFrom(s[1..], true)
    else [s[0]] + SanitiseFrom(s[1..], false)
  }

  /** The original file name with every maximal run of white space replaced
      by one underscore. */
  function Sanitise(s: string): (r: string)
    ensures NoSpace(r) && |r| <= |s|
    ensures Letters(r) == Letters(s)
  {
    SanitiseKeepsLetters(s, false);
    SanitiseFrom(s, false)
  }

  /** A name without white space is kept as it is. */
  lemma {:induction false} SanitiseKeepsSpaceFree(s: string, inRun: bool)
    requires NoSpace(s)
    ensures SanitiseFrom(s, inRun) == s
    decreases |s|
  {
    if |s| > 0 {
      assert NoSpace(s[1..]) by {
        forall i | 0 <= i < |s[1..]| ensures !IsSpace(s[1..][i]) {
          assert s[1..][i] == s[i + 1];
        }
      }
      SanitiseKeepsSpaceFree(s[1..], false);
      assert s == [s[0]] + s[1..];
    }
  }

  /** Inside a run, further white space adds nothing. */
  lemma {:induction false} RunAbsorbed(w: string, b: string)
    requires AllSpace(w)
    ensures SanitiseFrom(w + b, true) == SanitiseFrom(b, true)
    decreases |w|
  {
    if |w| == 0 {
      assert w + b == b;
    } else {
      assert (w + b)[0] == w[0];
      assert (w + b)[1..] == w[1..] + b;
      var rest := SanitiseFrom(w[1..] + b, true);
      assert SanitiseFrom(w + b, true) == [] + rest;
      assert [] + rest == rest;
      RunAbsorbed(w[1..], b);
    }
  }

  /** A scan that has just left a run starting on a non-space character
      behaves like a fresh scan. */
  lemma RunEnds(b: string)
    requires |b| == 0 || !IsSpace(b[0])
    ensures SanitiseFrom(b, true) == SanitiseFrom(b, false)
  {
  }

  /** What the scan emits for its first character `c`. */
  function Emit(c: char, inRun: bool): string {
    if IsSpace(c) then (if inRun then [] else "_") else [c]
  }

  /** One step of the scan. */
  lemma ScanStep(s: string, inRun: bool)
    requires |s| > 0
    ensures SanitiseFrom(s, inRun) == Emit(s[0], inRun) + SanitiseFrom(s[1..], IsSpace(s[0]))
  {
  }

  /** The scan splits after any character that is not white space: what is
      before and what is after are sanitised independently. */
  lemma {:induction false} SanitiseSplits(a: string, b: string, inRun: bool)
    requires |a| > 0 ==> !IsSpace(a[|a| - 1])
    requires |a| == 0 ==> !inRun
    ensures SanitiseFrom(a + b, inRun) == SanitiseFrom(a, inRun) + SanitiseFrom(b, false)
    decreases |a|
  {
    if |a| == 0 {
      assert a + b == b;
    } else {
      var ab := a + b;
      assert ab[0] == a[0];
      assert ab[1..] == a[1..] + b;
      var next := IsSpace(a[0]);
      var head := Emit(a[0], inRun);
      ScanStep(ab, inRun);
      ScanStep(a, inRun);
      if |a| > 1 {
        assert a[1..][|a[1..]| - 1] == a[|a| - 1];
      }
      SanitiseSplits(a[1..], b, next);
      assert SanitiseFrom(ab, inRun)
          == head + (SanitiseFrom(a[1..], next) + SanitiseFrom(b, false));
    }
  }

  /** Each maximal run of white space, wherever it stands, turns into exactly
      one underscore: `a + w + b` with `w` a non-empty run that `a` and `b` do
      not extend sanitises to the two sides joined by a single `_`. */
  lemma RunBecomesOneUnderscore(a: string, w: string, b: string)
    requires |w| > 0 && AllSpace(w)
    requires |a| > 0 ==> !IsSpace(a[|a| - 1])
    requires |b| > 0 ==> !IsSpace(b[0])
    ensures Sanitise(a + w + b) == Sanitise(a) + "_" + Sanitise(b)
  {
    var wb := w + b;
    assert a + w + b == a + wb;
    assert |wb| > 0 && IsSpace(wb[0]);
    SanitiseSplits(a, wb, false);
    assert SanitiseFrom(wb, false) == "_" + SanitiseFrom(wb[1..], true);
    assert wb[1..] == w[1..] + b;
    RunAbsorbed(w[1..], b);
    RunEnds(b);
  }

  /** The characters of `s` that are neither white space nor `_`, in order. */
  function Letters(s: string): string
    decreases |s|
  {
    if |s| == 0 then []
    else (if IsSpace(s[0]) || s[0] == '_' then [] else [s[0]]) + Letters(s[1..])
  }

  lemma {:induction false} LettersAppend(x: string, y: string)
    ensures Letters(x + y) == Letters(x) + Letters(y)
    decreases |x|
  {
    if |x| == 0 {
      assert x + y == y;
    } else {
      assert (x + y)[0] == x[0];
      assert (x + y)[1..] == x[1..] + y;
      LettersAppend(x[1..], y);
    }
  }

  /** Sanitising keeps every character that is not white space, in order:
      only the runs of white space are replaced. */
  lemma {:induction false} SanitiseKeepsLetters(s: string, inRun: bool)
    ensures Letters(SanitiseFrom(s, inRun)) == Letters(s)
    decreases |s|
  {
    if |s| > 0 {
      var head := Emit(s[0], inRun);
      ScanStep(s, inRun);
      LettersAppend(head, SanitiseFrom(s[1..], IsSpace(s[0])));
      SanitiseKeepsLetters(s[1..], IsSpace(s[0]));
      if IsSpace(s[0]) {
        assert Letters(head) == [] by {
          if !inRun {
            assert Letters(head) == [] + Letters(head[1..]);
          }
        }
      } else {
        assert head == [s[0]] && head[1..] == [];
      }
    }
  }

  /** The sanitised name contains no white space, and sanitising again
      changes nothing. */
  lemma SanitiseIdempotent(s: string)
    ensures NoSpace(Sanitise(s))
    ensures Sanitise(Sanitise(s)) == Sanitise(s)
  {
    SanitiseKeepsSpaceFree(Sanitise(s), false);
  }

  /** The name the file is stored under: the clock reading in milliseconds,
      an underscore, and the sanitised original name. */
  function StoredName(now: nat, original: string): (name: string)
    ensures NoSpace(name)
  {
    var stamp := NatToDecimal(now);
    assert NoSpace(stamp) by {
      forall i | 0 <= i < |stamp| ensures !IsSpace(stamp[i]) {
        assert '0' <= stamp[i] <= '9';
      }
    }
    stamp + "_" + Sanitise(original)
  }

  /** Index of the first `_` in `s`, or |s| when there is none. */
  function FirstUnderscore(s: string): (i: nat)
    ensures i <= |s|
    ensures forall j :: 0 <= j < i ==> s[j] != '_'
    ensures i < |s| ==> s[i] == '_'
  {
    if |s| == 0 then 0
    else if s[0] == '_' then 0
    else 1 + FirstUnderscore(s[1..])
  }

  /** Read a stored name back into its clock reading and sanitised name. */
  function ParseStoredName(name: string): (p: Option<(nat, string)>)
    ensures p.Some? ==> |NatToDecimal(p.value.0)| < |name|
  {
    var i := FirstUnderscore(name);
    if i < |name| && IsCanonicalDecimal(name[..i]) then
      var n := DecimalValue(name[..i]);
      DecimalRoundTripBack(name[..i]);
      Some((n, name[i + 1..]))
    else None
  }

  /** The stored name determines both the clock reading and the sanitised
      original name, so two uploads in different milliseconds never share a
      file name. */
  lemma StoredNameRoundTrip(now: nat, original: string)
    ensures ParseStoredName(StoredName(now, original)) == Some((now, Sanitise(original)))
  {
    var stamp := NatToDecimal(now);
    var name := StoredName(now, original);
    assert name[|stamp|] == '_';
    forall j | 0 <= j < |stamp| ensures name[j] != '_' {
      assert name[j] == stamp[j];
    }
    assert FirstUnderscore(name) == |stamp| by {
      FirstUnderscoreAt(name, |stamp|);
    }
    assert name[..|stamp|] == stamp;
    DecimalRoundTrip(now);
    assert name[|stamp| + 1..] == Sanitise(original);
  }

  /** `FirstUnderscore` finds the first `_`. */
  lemma {:induction false} FirstUnderscoreAt(s: string, i: nat)
    requires i < |s| && s[i] == '_'
    requires forall j :: 0 <= j < i ==> s[j] != '_'
    ensures FirstUnderscore(s) == i
  {
    if i > 0 {
      FirstUnderscoreAt(s[1..], i - 1);
    }
  }
}
