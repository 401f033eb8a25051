/** The News record of com.epam.ta.model: five mutable fields, a field-wise and a
    copy constructor, getters and setters, structural equals and hashCode. */
module NewsModel {

  import opened Wrappers
  import opened JavaLang

  /** The five fields of a News object at one moment, as a value. */
  datatype NewsRecord = NewsRecord(
    newsId: JavaLong,
    title: JString,
    brief: JString,
    content: JString,
    dateOfPublishing: JString)

  /** The primes of News.hashCode, in the order the fold uses them. */
  const Prime1: int := 19
  const Prime2: int := 43
  const Prime3: int := 23
  const Prime4: int := 67
  const Prime5: int := 79

  /** Contribution of one String field to the hash: 0 for null, otherwise
      the documented String.hashCode polynomial over its UTF-16 units, wrapped
      to an int. */
  function FieldHash(s: JString): (h: JavaInt)
    ensures h == (if s.None? then 0 else ToJavaInt(HashPolynomial(Utf16(s.value))))
  {
    match s
    case None => 0
    case Some(t) => StringHashCode(t)
  }

  /** `a == null ? b == null : a.equals(b)`, the test equals applies to each
      String field; String.equals compares the characters. */
  function SameString(a: JString, b: JString): (r: bool)
    ensures r <==> a == b
  {
    if a.None? then b.None? else b.Some? && a.value == b.value
  }

  class News {
    var newsId: JavaLong
    var title: JString
    var brief: JString
    var content: JString
    var dateOfPublishing: JString

    /** The object's fields as a value. */
    function Value(): NewsRecord
      reads this
    {
      NewsRecord(newsId, title, brief, content, dateOfPublishing)
    }

    /** `News(long, String, String, String, String)`: every field takes the
        corresponding argument (the Java constructor assigns them through the
        setters). */
    constructor (newsId: JavaLong, title: JString, brief: JString, content: JString,
                 dateOfPublishing: JString)
      ensures GetNewsId() == newsId && GetTitle() == title && GetBrief() == brief
      ensures GetContent() == content && GetDateOfPublishing() == dateOfPublishing
    {
      this.newsId := newsId;
      this.title := title;
      this.brief := brief;
      this.content := content;
      this.dateOfPublishing := dateOfPublishing;
    }

    /** `News(News)`: a new object holding the same five field values; the
        argument is only read. */
    constructor Copy(news: News)
      ensures Value() == news.Value()
      ensures Equals(news) && news.Equals(this)
    {
      newsId := news.newsId;
      title := news.title;
      brief := news.brief;
      content := news.content;
      dateOfPublishing := news.dateOfPublishing;
    }

    function GetTitle(): JString
      reads this
    {
      title
    }

    function GetBrief(): JString
      reads this
    {
      brief
    }

    function GetContent(): JString
      reads this
    {
      content
    }

    function GetDateOfPublishing(): JString
      reads this
    {
      dateOfPublishing
    }

    function GetNewsId(): JavaLong
      reads this
    {
      newsId
    }

    method SetNewsId(newsId: JavaLong)
      modifies this
      ensures Value() == old(Value()).(newsId := newsId)
    {
      this.newsId := newsId;
    }

    method SetTitle(title: JString)
      modifies this
      ensures Value() == old(Value()).(title := title)
    {
      this.title := title;
    }

    method SetBrief(brief: JString)
      modifies this
      ensures Value() == old(Value()).(brief := brief)
    {
      this.brief := brief;
    }

    method SetContent(content: JString)
      modifies this
      ensures Value() == old(Value()).(content := content)
    {
      this.content := content;
    }

    method SetDateOfPublishing(dateOfPublishing: JString)
      modifies this
      ensures Value() == old(Value()).(dateOfPublishing := dateOfPublishing)
    {
      this.dateOfPublishing := dateOfPublishing;
    }

    /** `hashCode()`: starting from 1, each field in turn is folded in as
        `hash = prime * hash + fieldHash`, in wrapping int arithmetic. The
        result is one wrapping of a fixed linear combination of the field
        hashes, each weighted by the product of the primes that follow it in
        the fold (19*43*23*67*79 = 99460763, 43*23*67*79 = 5234777,
        23*67*79 = 121739, 67*79 = 5293). */
    function HashCode(): (h: JavaInt)
      reads this
      ensures h == ToJavaInt(99460763 + 5234777 * FieldHash(brief) + 121739 * FieldHash(content)
                             + 5293 * FieldHash(dateOfPublishing) + 79 * LongHash(newsId)
                             + FieldHash(title))
    {
      HashFoldClosedForm(FieldHash(brief), FieldHash(content), FieldHash(dateOfPublishing),
                         LongHash(newsId), FieldHash(title));
      HashFold(FieldHash(brief), FieldHash(content), FieldHash(dateOfPublishing),
               LongHash(newsId), FieldHash(title))
    }

    /** `equals(Object)`: the same object is equal; null is not; otherwise the
        fields are compared one by one, brief, content, date, id, title. The
        result is exactly structural equality of the five fields. */
    function Equals(obj: News?): (r: bool)
      reads this, obj
      ensures r <==> obj != null && Value() == obj.Value()
    {
      if this == obj then true
      else if obj == null then false
      else if !SameString(brief, obj.brief) then false
      else if !SameString(content, obj.content) then false
      else if !SameString(dateOfPublishing, obj.dateOfPublishing) then false
      else if newsId != obj.newsId then false
      else SameString(title, obj.title)
    }
  }

  /** equals is an equivalence relation on News objects and is false for null. */
  lemma EqualsIsEquivalence(a: News, b: News, c: News)
    ensures a.Equals(a)
    ensures a.Equals(b) <==> b.Equals(a)
    ensures a.Equals(b) && b.Equals(c) ==> a.Equals(c)
    ensures !a.Equals(null)
  {
  }

  /** hashCode is consistent with equals. */
  lemma HashCodeConsistentWithEquals(a: News, b: News)
    requires a.Equals(b)
    ensures a.HashCode() == b.HashCode()
  {
  }

  /** The fold of hashCode over the hashes of brief, content, date, id and
      title: from 1, `hash = prime * hash + fieldHash` with int wrap-around. */
  function HashFold(hb: int, hc: int, hd: int, hi: int, ht: int): JavaInt
  {
    var hash := 1;
    var hash := ToJavaInt(Prime1 * hash + hb);
    var hash := ToJavaInt(Prime2 * hash + hc);
    var hash := ToJavaInt(Prime3 * hash + hd);
    var hash := ToJavaInt(Prime4 * hash + hi);
    ToJavaInt(Prime5 * hash + ht)
  }

  /** The fold of hashCode over exact field hashes, unrolled. */
  lemma HashFoldClosedForm(hb: int, hc: int, hd: int, hi: int, ht: int)
    ensures HashFold(hb, hc, hd, hi, ht)
         == ToJavaInt(99460763 + 5234777 * hb + 121739 * hc + 5293 * hd + 79 * hi + ht)
  {
    var e1 := 19 + hb;
    var e2 := 43 * e1 + hc;
    var e3 := 23 * e2 + hd;
    var e4 := 67 * e3 + hi;
    WrapStep(43, e1, hc);
    WrapStep(23, e2, hd);
    WrapStep(67, e3, hi);
    WrapStep(79, e4, ht);
  }

  /** A copy is independent of its source: setting a field of the copy leaves
      the source as it was, and the two are then equal exactly when the new
      value is the one the source already had. */
  method CopyThenSetTitle(source: News, title: JString) returns (copy: News)
    ensures fresh(copy) && copy != source
    ensures source.Value() == old(source.Value())
    ensures copy.Value() == source.Value().(title := title)
    ensures copy.Equals(source) <==> title == source.title
  {
    copy := new News.Copy(source);
    copy.SetTitle(title);
  }
}
