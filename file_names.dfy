/** The names the generated images are saved under: the output path is
    built from the field radius and the image index, and the record's
    file name is its last path component. */
module FileNames {

  predicate IsDigit(ch: char) {
    '0' <= ch <= '9'
  }

  function DigitChar(d: nat): (ch: char)
    requires d < 10
    ensures IsDigit(ch)
  {
    "0123456789"[d]
  }

  function DigitValue(ch: char): (d: nat)
    requires IsDigit(ch)
    ensures d < 10
  {
    (ch as int - '0' as int) as nat
  }

  /** `str(n)` for a natural number: its decimal digits, no leading zero. */
  function Decimal(n: nat): (s: string)
    ensures |s| > 0 && forall k :: 0 <= k < |s| ==> IsDigit(s[k])
    ensures s[0] == '0' <==> n == 0
    ensures n == 0 ==> s == "0"
  {
    if n < 10 then [DigitChar(n)] else Decimal(n / 10) + [DigitChar(n % 10)]
  }

  /** The value of a string of decimal digits. */
  function ParseDecimal(s: string): nat
    requires forall k :: 0 <= k < |s| ==> IsDigit(s[k])
  {
    if s == [] then 0 else 10 * ParseDecimal(s[..|s| - 1]) + DigitValue(s[|s| - 1])
  }

  /** Reading back the decimal form of n gives n. */
  lemma {:induction false} DecimalRoundTrip(n: nat)
    ensures ParseDecimal(Decimal(n)) == n
  {
    var s := Decimal(n);
    if n >= 10 {
      DecimalRoundTrip(n / 10);
      assert s[..|s| - 1] == Decimal(n / 10);
    }
  }

  /** Different numbers are written differently. */
  lemma DecimalInjective(m: nat, n: nat)
    requires Decimal(m) == Decimal(n)
    ensures m == n
  {
    DecimalRoundTrip(m);
    DecimalRoundTrip(n);
  }

  /** The part of a path after its last '/'. */
  function LastComponent(path: string): (name: string)
    ensures '/' !in name
  {
    if path == [] then []
    else if path[|path| - 1] == '/' then []
    else LastComponent(path[..|path| - 1]) + [path[|path| - 1]]
  }

  /** Splitting off the last component of dir + "/" + name gives name back
      when name holds no '/'. */
  lemma {:induction false} LastComponentOf(dir: string, name: string)
    requires '/' !in name
    ensures LastComponent(dir + "/" + name) == name
    decreases |name|
  {
    var path := dir + "/" + name;
    if name == [] {
      assert path[|path| - 1] == '/';
    } else {
      var n := |name| - 1;
      assert path[..|path| - 1] == dir + "/" + name[..n];
      assert name[n] in name;
      LastComponentOf(dir, name[..n]);
      assert name == name[..n] + [name[n]];
    }
  }

  /** The image's file name: aspects-all-rad-{R}-id-{i}.png. */
  function FileName(radius: nat, i: nat): string {
    "aspects-all-rad-" + Decimal(radius) + "-id-" + Decimal(i) + ".png"
  }

  /** The output path of image i. */
  function OutputPath(radius: nat, i: nat): string {
    "./scripts_other/fake_researches_generator/output/all aspects rad " + Decimal(radius) + "/" + FileName(radius, i)
  }

  /** No digit string contains '/'. */
  lemma NoSlashInDecimal(n: nat)
    ensures '/' !in Decimal(n)
  {
    var s := Decimal(n);
    assert forall k :: 0 <= k < |s| ==> s[k] != '/';
  }

  /** The file name recorded for image i is the last component of the path
      it is saved under. */
  lemma FileNameOfPath(radius: nat, i: nat)
    ensures LastComponent(OutputPath(radius, i)) == FileName(radius, i)
  {
    NoSlashInFileName(radius, i);
    LastComponentOf("./scripts_other/fake_researches_generator/output/all aspects rad " + Decimal(radius), FileName(radius, i));
  }

  /** A file name holds no '/'. */
  lemma NoSlashInFileName(radius: nat, i: nat)
    ensures '/' !in FileName(radius, i)
  {
    NoSlashInDecimal(radius);
    NoSlashInDecimal(i);
    assert '/' !in "aspects-all-rad-";
    assert '/' !in "-id-";
    assert '/' !in ".png";
  }

  /** Within a run every image gets a file name of its own. */
  lemma FileNamesDistinct(radius: nat, i: nat, j: nat)
    requires FileName(radius, i) == FileName(radius, j)
    ensures i == j
  {
    var p := "aspects-all-rad-" + Decimal(radius) + "-id-";
    var a, b := FileName(radius, i), FileName(radius, j);
    assert a == p + Decimal(i) + ".png";
    assert b == p + Decimal(j) + ".png";
    assert |Decimal(i)| == |Decimal(j)|;
    assert Decimal(i) == a[|p|..|a| - 4];
    assert Decimal(j) == b[|p|..|b| - 4];
    DecimalInjective(i, j);
  }
}
