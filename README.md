# News data-access layer: query text, row mapping and the News record

This project models the computational core of a small Java data-access layer
for "news" items (package `com.epam.ta`):

- **`News`** (`model/News.java`) is a mutable record with five fields: a
  `long` id, and a title, brief, content and publication date, each a `String`
  that may be `null`. It has a field-wise constructor, a copy constructor,
  getters, setters, a null-aware structural `equals`, and a `hashCode` that
  folds the fields with five primes in wrapping 32-bit arithmetic.
  It is modelled as the class `NewsModel.News`. A Java `null` string is
  `Option.None`. `Value()` gives the five fields as a `NewsRecord` value.
- **`NewsDAO.deleteGroupQuery`** builds the batch-delete statement. It starts
  from the statement text the query catalogue holds, appends the selected ids
  with a comma between each two, and closes with `")"`. It is modelled as the
  method `NewsDao.DeleteGroupQuery` over a Java array. The catalogue text is a
  parameter. The method is proved equal to the specification function
  `GroupQuery`, and the properties of the statement are proved as lemmas
  about that function.
- **`NewsDAO.buildNews` / `buildNewsList`** turn result rows into `News`
  objects by fixed column positions: 1 id, 2 title, 3 brief, 4 content,
  5 date. A row is a sequence of column values, numbered from 1 as in JDBC.
  `ResultSet.getLong` reads SQL NULL as 0 and `getString` reads it as `null`.
  `getString` reads a numeric column as the number's decimal text
  (`Long.toString`). An invalid column index, or `getLong` on a text column,
  raises `SQLException`, which `buildNews` wraps into `NewsDAOException`.

The Java library behaviour that `hashCode` and the getters depend on is
spelled out in module `JavaLang`:

- `int` arithmetic wraps modulo 2^32 (`ToJavaInt`).
- `String.hashCode` is the fold `h = 31*h + c` over UTF-16 code units. It is
  proved equal to the documented polynomial
  `s[0]*31^(n-1) + ... + s[n-1]`.
- `(int)(id ^ (id >>> 32))` folds the high half of the long onto the low
  half.
- `Long.toString` gives a long's decimal text, and that text parses back to
  the long (`LongToStringRoundTrip`).

Behaviour of the code worth knowing:

- `deleteGroupQuery` concatenates the ids into the statement text; it does
  not bind them as parameters. `GroupQueryAmbiguous` shows the consequence:
  the single id `"1,2"` gives the same statement as the two ids `"1"` and
  `"2"`.
- For an empty selection the statement is the catalogue text followed by
  `")"` (`GroupQueryShape`).
- `fetchNewsById` ignores the result of `next()`, so a missing row has no
  outcome of its own in the code.

## Model

| member | source | states |
|---|---|---|
| `JavaLang.ToJavaInt` | src/com/epam/ta/model/News.java:95-103 | The wrapped int is congruent to the exact value modulo 2^32 and lies in the int range, which is Java's `int` overflow. |
| `JavaLang.WrapStep` | src/com/epam/ta/model/News.java:95-103 | Wrapping after each step of `prime * hash + x` gives the same int as wrapping only at the end. |
| `JavaLang.UnitsHashIsPolynomial` | src/com/epam/ta/model/News.java:96-102 | The `h = 31*h + c` fold over UTF-16 code units equals the documented polynomial `u[0]*31^(n-1)+...+u[n-1]`, wrapped to an int. |
| `JavaLang.StringHashCode` | src/com/epam/ta/model/News.java:96-102 | `String.hashCode` of a string is that polynomial over its UTF-16 units, and the empty string hashes to 0. |
| `JavaLang.LongHash` | src/com/epam/ta/model/News.java:101 | `(int)(id ^ (id >>> 32))` is the low 32 bits of the id exclusive-or its high 32 bits, read as a signed int. |
| `JavaLang.LongHashOfSmall` | src/com/epam/ta/model/News.java:101 | `(int)(id ^ (id >>> 32))` is the id itself when the id lies in 0 .. 2^31-1. |
| `JavaLang.LongHashOfNegative` | src/com/epam/ta/model/News.java:101 | `(int)(id ^ (id >>> 32))` is `-id-1` when the id lies in -2^31 .. -1, because the high half is all ones. |
| `NewsModel.FieldHash` | src/com/epam/ta/model/News.java:96-102 | A null String field contributes 0 to the hash. A non-null field contributes the documented polynomial over its UTF-16 units, wrapped to an int. |
| `NewsModel.SameString` | src/com/epam/ta/model/News.java:114-120 | The null-aware field test in `equals` holds exactly when both are null or both hold the same characters. |
| `NewsModel.News.constructor` | src/com/epam/ta/model/News.java:25-60 | The five-argument constructor stores each argument, and each getter returns what was stored. |
| `NewsModel.News.Copy` | src/com/epam/ta/model/News.java:34-40 | The copy holds the same five values as its source, and the two are `equals` in both directions. |
| `NewsModel.News.SetNewsId` | src/com/epam/ta/model/News.java:62-64 | Sets the id. The other four fields are unchanged. |
| `NewsModel.News.SetTitle` | src/com/epam/ta/model/News.java:66-68 | Sets the title. The other four fields are unchanged. |
| `NewsModel.News.SetBrief` | src/com/epam/ta/model/News.java:70-72 | Sets the brief. The other four fields are unchanged. |
| `NewsModel.News.SetContent` | src/com/epam/ta/model/News.java:74-76 | Sets the content. The other four fields are unchanged. |
| `NewsModel.News.SetDateOfPublishing` | src/com/epam/ta/model/News.java:78-80 | Sets the publication date. The other four fields are unchanged. |
| `NewsModel.News.Equals` | src/com/epam/ta/model/News.java:106-146 | `equals` holds exactly when the argument is non-null and all five fields are equal, with null strings equal only to null. |
| `NewsModel.EqualsIsEquivalence` | src/com/epam/ta/model/News.java:106-112 | `equals` is reflexive, symmetric and transitive, and is false for null. |
| `NewsModel.HashCodeConsistentWithEquals` | src/com/epam/ta/model/News.java:88-146 | Objects that are `equals` have the same `hashCode`. |
| `NewsModel.HashFoldClosedForm` | src/com/epam/ta/model/News.java:95-103 | The five-step fold from seed 1 with primes 19, 43, 23, 67, 79 equals one wrapped linear combination of the field hashes. |
| `NewsModel.News.HashCode` | src/com/epam/ta/model/News.java:88-104 | `hashCode` is `99460763 + 5234777*h(brief) + 121739*h(content) + 5293*h(date) + 79*h(id) + h(title)`, wrapped to an int. |
| `NewsModel.CopyThenSetTitle` | src/com/epam/ta/model/News.java:34-68 | After copying and setting the copy's title, the source is unchanged. The copy differs from the source only in the title, and the two are `equals` exactly when the new title equals the old one. |
| `NewsDao.GroupQuery` | src/com/epam/ta/database/dao/NewsDAO.java:135-145 | The statement starts with the catalogue text, is longer than it, and ends with `)`. |
| `NewsDao.DeleteGroupQuery` | src/com/epam/ta/database/dao/NewsDAO.java:134-146 | The loop returns exactly the prefix, then the ids' texts joined by `","`, then `")"`. A null id is written as `null`, as `StringBuilder.append` does. |
| `NewsDao.GroupQueryShape` | src/com/epam/ta/database/dao/NewsDAO.java:135-144 | No ids give `prefix + ")"`. One id gives `prefix + id + ")"` with no comma. A single null id gives `prefix + "null)"`. |
| `NewsDao.GroupQueryLength` | src/com/epam/ta/database/dao/NewsDAO.java:135-145 | The length is the prefix's, plus the ids' texts, plus max(n-1, 0) commas, plus 1. |
| `NewsDao.GroupQuerySeparators` | src/com/epam/ta/database/dao/NewsDAO.java:138-143 | Between the prefix and `)`, the number of commas is max(n-1, 0) plus the commas inside the ids. |
| `NewsDao.GroupQueryIdsInOrder` | src/com/epam/ta/database/dao/NewsDAO.java:138-143 | Id k appears verbatim after the prefix, the k texts before it and k commas. A comma follows every id but the last. |
| `NewsDao.GroupQueryRoundTrip` | src/com/epam/ta/database/dao/NewsDAO.java:138-144 | With at least one id and no comma in any id, splitting the text between the prefix and `)` at `,` gives back the ids' texts in order. |
| `NewsDao.SplitJoin` | src/com/epam/ta/database/dao/NewsDAO.java:138-143 | Joining at least one comma-free part with `","` and splitting at `,` returns the parts. |
| `NewsDao.JoinSplit` | src/com/epam/ta/database/dao/NewsDAO.java:138-143 | Splitting any text at `,` and joining with `","` returns the text. |
| `NewsDao.GroupQueryAmbiguous` | src/com/epam/ta/database/dao/NewsDAO.java:138-143 | The single id `"1,2"` and the two ids `"1"`, `"2"` give the same statement. |
| `NewsDao.RowRecord` | src/com/epam/ta/database/dao/NewsDAO.java:214-220 | A record needs at least five columns. An error names one of columns 1 to 5. A missing column is the first index past the row's end. Only the id column, column 1, can fail to convert. |
| `NewsDao.RowRecordOfTableRow` | src/com/epam/ta/database/dao/NewsDAO.java:214-220 | Reading a stored row (id, title, brief, content, date at columns 1 to 5, then anything) gives back the stored record. |
| `NewsDao.RowRecordErrors` | src/com/epam/ta/database/dao/NewsDAO.java:213-224 | A row maps to a record exactly when it has at least five columns and column 1 is not text. An empty row fails at column 1. |
| `NewsDao.RowRecordNumericTitle` | src/com/epam/ta/database/dao/NewsDAO.java:214-220 | `getString` on a numeric title column gives the number's decimal text, which parses back to the number, and the row still maps. |
| `JavaLang.LongToStringRoundTrip` | src/com/epam/ta/database/dao/NewsDAO.java:215-219 | The decimal text that `getString` gives for a numeric column reads back as the same long. |
| `NewsDao.BuildNews` | src/com/epam/ta/database/dao/NewsDAO.java:211-225 | Returns a new `News` holding the row's record, or `NewsDAOException` wrapping the first getter's `SQLException`. |
| `NewsDao.RowsRecords` | src/com/epam/ta/database/dao/NewsDAO.java:230-234 | The mapped list, when there is one, has one entry per row. |
| `NewsDao.RowsRecordsSpec` | src/com/epam/ta/database/dao/NewsDAO.java:230-234 | The list maps row k to record k, and no rows give an empty list. It fails exactly when some row fails, with the first failing row's error. |
| `NewsDao.RowsRecordsPrefixErr` | src/com/epam/ta/database/dao/NewsDAO.java:231-233 | A failure in a prefix of the rows ends the whole list with that failure. |
| `NewsDao.BuildNewsList` | src/com/epam/ta/database/dao/NewsDAO.java:227-239 | The loop returns one new, distinct `News` per row, in row order, each as `buildNews` builds it. The first failing row aborts with its `NewsDAOException`. |

## Left out

- JDBC plumbing in every public DAO method (NewsDAO.java:57-190) is not modelled. That covers acquiring and releasing connections, preparing and binding statements, and executing them. These are calls into a driver and a connection pool whose code is not part of this model.
- `getLastCreatedNewsId` (NewsDAO.java:192-209) is not modelled, because it depends on database session state.
- The not-found case of `fetchNewsById` is not modelled. The code ignores the result of `next()` and defines no outcome for a missing row.
- Logging through log4j is not modelled, because it has no computational content. Exception wrapping is modelled only where `buildNews` wraps a getter's error.
- The singleton instance and the static pool field are not modelled. They are process-wide wiring.
- `SQLQueryReader` is not modelled: its property file is not part of this model. The batch-delete statement text is a parameter instead.
- The no-argument `News()` constructor is not modelled. It reads the wall clock and calls a date formatter that is not part of this model.
- `clone` is not modelled, because it delegates to the native `Object.clone`. `toString` is not modelled, because it is only for display. Serialisation is not modelled either.
- NewsModel.News.Equals: the argument is a `News` or null, so the `getClass()` test against objects of other classes is not modelled.
- JavaLang.StringHashCode: Java strings holding unpaired UTF-16 surrogates cannot be represented, because a Dafny `char` is a Unicode scalar value.
- NewsDao.GetLong: some drivers parse a numeric text column for `getLong`. That conversion is not modelled: `getLong` on a text column raises `SQLException`. Column types other than BIGINT and VARCHAR are not modelled either.
- NewsDao.DeleteGroupQuery: a null array, on which `deleteGroupQuery` throws `NullPointerException` at `.length`, is not modelled. The array parameter is non-null.
- NewsModel.News.Copy: a null argument, on which the Java copy constructor throws `NullPointerException`, is not modelled. The argument is non-null.
- NewsDao.BuildNewsList: the result set is a finite sequence of rows, and advancing past a row cannot fail. An `SQLException` raised by `next()` itself is not modelled.
