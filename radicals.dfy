/** The substitution at the heart of radical_highlighter.js: every
    character of the CJK Unified Ideographs block (U+4E00 to U+9FFF) that
    is also one of the listed radicals is wrapped in a highlight span;
    everything else is copied. */
module Radicals {

  /** `radicals`: 211 distinct characters (the comment beside it speaks of
      214 radicals). */
  const RadicalChars: string := "一丨丶丿乙亅二亠人儿入八冂冖冫几凵刀力勹匕匚十卜卩厂厶又口囗土士夂夊夕大女子宀寸小尢尸屮山川工己巾干幺广廴廾弋弓彐彡彳心戈戶手支攴文斗斤方无日曰月木欠止歹殳毋比毛氏气水火爪父爻爿片牙牛犬玄玉瓜瓦甘生用田疋疒癶白皮皿目矛矢石示禸禾穴立竹米糸缶网羊羽老而耒耳聿肉臣自至臼舌舛舟艮色艸虍虫血行衣西見角言谷豆豕豸貝赤走足身車辛辰酉釆里金長門阜隶隹雨青非面革韋韭音頁風飛食首香馬骨高髟鬥鬯鬲鬼魚鳥鹵鹿麥麻黃黍黑黹黽鼎鼓鼠鼻齊齒龍龜龠"

  /** `isRadical`. */
  predicate IsRadical(c: char) {
    c in RadicalChars
  }

  /** The character class `[\u4E00-\u9FFF]` of the replace pattern. */
  predicate InBlock(c: char) {
    '\U{4E00}' <= c <= '\U{9FFF}'
  }

  /** A character the replace callback wraps. */
  predicate Wrapped(c: char) {
    InBlock(c) && IsRadical(c)
  }

  /** The opening tag of the wrapper, written as its `<` followed by the
      rest so that its first character is visible without unfolding the
      whole literal. */
  const Open: string := "<" + "span class=\"radical-highlight\" style=\"background:yellow;color:red;font-weight:bold;\">"
  const Close: string := "</span>"

  lemma RadicalCount()
    ensures |RadicalChars| == 211
    ensures IsRadical('龠') && Wrapped('龠')
  {
    assert RadicalChars[210] == '龠';
  }

  /** The replace callback applied to one character: a wrapped character
      becomes `Open + c + Close`; any other character is copied (outside
      the block the pattern does not even match it). */
  function WrapChar(c: char): (r: string)
    ensures Wrapped(c) ==> r == Open + [c] + Close
    ensures !Wrapped(c) ==> r == [c]
  {
    if Wrapped(c) then Open + [c] + Close else [c]
  }

  /** `text.replace(/[\u4E00-\u9FFF]/g, callback)` together with the
      `hasRadical` flag the callback raises. */
  function Substitute(text: string): (r: (string, bool))
    ensures r.1 <==> exists i :: 0 <= i < |text| && Wrapped(text[i])
    ensures |r.0| >= |text|
    ensures !r.1 ==> r.0 == text
  {
    if text == [] then ("", false)
    else
      var rest := Substitute(text[1..]);
      assert forall i :: 1 <= i < |text| ==> text[i] == text[1..][i - 1];
      (WrapChar(text[0]) + rest.0, Wrapped(text[0]) || rest.1)
  }
}
