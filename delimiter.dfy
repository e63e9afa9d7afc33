/** The header rule of `sniff_delimiter`: `;` only when the first line has strictly more `;` than `,`. */
module Delimiter {
  import opened Text

  /** `f.read(4096)` reads at most this many characters. */
  const SampleSize: nat := 4096

  function Sample(text: string): (head: string)
    ensures |head| <= SampleSize && |head| <= |text| && head == text[..|head|]
    ensures |head| == SampleSize || head == text
  {
    if |text| <= SampleSize then text else text[..SampleSize]
  }

  /** `head.splitlines()[0] if head else ""`: the characters before the first line break. */
  function FirstLine(head: string): (line: string)
    ensures |line| <= |head| && line == head[..|line|]
    ensures forall i :: 0 <= i < |line| ==> !IsLineBreak(line[i])
    ensures |line| == |head| || IsLineBreak(head[|line|])
  {
    if head == [] || IsLineBreak(head[0]) then []
    else [head[0]] + FirstLine(head[1..])
  }

  /** `;` exactly when the header line holds more `;` than `,`; ties and an empty file give `,`. */
  function SniffDelimiter(text: string): (d: char)
    ensures d == ';' || d == ','
    ensures d == ';' <==> multiset(FirstLine(Sample(text)))[';'] > multiset(FirstLine(Sample(text)))[',']
    ensures text == "" ==> d == ','
  {
    var line := FirstLine(Sample(text));
    if CountChar(line, ';') > CountChar(line, ',') then ';' else ','
  }
}
