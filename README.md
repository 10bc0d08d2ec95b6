# momo-code-sec-inspector-java: the SQL-injection heuristic and its autofix, in Dafny

This project models the core of the momo-code-sec-inspector-java IntelliJ plugin: the
heuristic that decides whether SQL text assembled by string splicing is injectable, and
the quick fixes that rewrite MyBatis `${...}` splices into `#{...}` bind parameters.
Alongside it are the XXE factory check with its fix statements, the findings table of
the feedback service, the hard-coded IP address test, the git identity entity and the
Jackson default-typing rule.

The host parse tree is abstracted into input datatypes. An expression is a closed
`Expr` datatype. Arguments, annotation pairs and method calls are lists of tagged
records. A walk over a scope is the sequence of calls it meets. Tree edits come back as
returned values: a new text, a list of `Text`/`Foreach` nodes, or a list of statements.
Everything else follows the Java code branch for branch.

- `String.split` keeps leading empty pieces and drops trailing ones.
- A split with no match gives the whole text.
- Case-insensitive matching is ASCII-only.
- `String.trim` strips characters up to `' '`.
- `Integer.parseInt` takes an optional sign and at most 32 bits.
- An out-of-bounds `substring` is an explicit `Failure`.

Modules, one per source file:

| module | file |
|---|---|
| `Wrappers`, `JavaString`, `Patterns` | Java library semantics and the fixed regular expressions of `SQLi.java` |
| `Sqli` | `SQLi.java` |
| `BaseSqli` | `BaseSQLi.java` |
| `MybatisAnnotation` | `MybatisAnnotationSQLi.java` |
| `MybatisXml`, `MybatisXmlProperties` | `MybatisXmlSQLi.java` |
| `PolyadicSqli` | `PolyadicExpressionSQLi.java` |
| `PlaceholderSqli` | `PlaceholderStringSQLi.java` |
| `ExpressionUtils` | `MoExpressionUtils.java` |
| `Xxe` | `XxeInspector.java` |
| `Feedback` | `FeedbackService.java` |
| `GitInfoEntity` | `entity/GitInfo.java` |
| `HardcodedIp` | `HardcodedIp.java` |
| `Jackson` | `JacksonDatabindDefaultTyping.java` |

Loops in the source are methods proved equal to a specification function. The
properties are lemmas about those functions. Objects whose fields the source updates
are classes: the feedback service, the git info entity and the XXE walking visitor.

## Model

| member | source | states |
|---|---|---|
| Patterns.Find | src/main/java/com/immomo/momosec/utils/SQLi.java:28-37 | Matcher.find from an offset: the match found is the leftmost one at or after the offset, and None means no position matches |
| Patterns.Split | src/main/java/com/immomo/momosec/utils/SQLi.java:36-37 | Pattern.split with limit 0: the pieces between matches with trailing empty pieces dropped |
| Patterns.SplitEmptyCovered | src/main/java/com/immomo/momosec/lang/java/rule/momosecurity/BaseSQLi.java:51-52 | the split is empty only for a text made entirely of delimiter characters |
| Patterns.SplitJoinDot | src/main/java/com/immomo/momosec/lang/java/rule/momosecurity/JacksonDatabindDefaultTyping.java:140-148 | a text that does not end in '.' is rebuilt exactly by joining its split on '.' |
| Patterns.SplitOfJoinDot | src/main/java/com/immomo/momosec/lang/java/rule/momosecurity/JacksonDatabindDefaultTyping.java:140-148 | splitting the '.'-join of dot-free pieces, the last non-empty, gives those pieces back |
| Patterns.SplitOfJoinDotTrailing | src/main/java/com/immomo/momosec/lang/java/rule/momosecurity/HardcodedIp.java:58 | a trailing '.' after such a join adds nothing to the split |
| JavaString.LowerIdempotent | src/main/java/com/immomo/momosec/utils/SQLi.java:104 | lower-casing twice is lower-casing once |
| JavaString.TrimPadded | src/main/java/com/immomo/momosec/utils/SQLi.java:105 | trimmable padding on either side never changes String.trim |
| Sqli.ScanVerdictIff | src/main/java/com/immomo/momosec/utils/SQLi.java:67-94 | the backward token scan is false exactly when some name keyword (from/into/join/select/update) is the last deciding keyword; limit, by and having are skipped |
| Sqli.HasVulOnSQLJoinStr | src/main/java/com/immomo/momosec/utils/SQLi.java:67-94 | the loop over the `\s+` tokens of the prefix equals the scan verdict; the variable and suffix are never consulted |
| Sqli.HasVulOnSQLJoinStrList | src/main/java/com/immomo/momosec/utils/SQLi.java:45-58 | true iff some entry of two or three parts has a vulnerable prefix; other sizes are skipped and the empty list gives false |
| Sqli.HasVulOnAdditiveFragments | src/main/java/com/immomo/momosec/utils/SQLi.java:102-141 | true iff some fragment, lower-cased and trimmed, escapes every exclusion |
| Sqli.AdditiveAppend | src/main/java/com/immomo/momosec/utils/SQLi.java:102-106 | the verdict on a concatenated list is the disjunction of the verdicts on its parts |
| Sqli.AdditivePermutation | src/main/java/com/immomo/momosec/utils/SQLi.java:102-106 | reordering the fragments never changes the verdict |
| Sqli.FragmentCaseInsensitive | src/main/java/com/immomo/momosec/utils/SQLi.java:104 | fragments equal up to ASCII case get the same verdict |
| Sqli.FragmentPaddingInvariant | src/main/java/com/immomo/momosec/utils/SQLi.java:105 | leading and trailing trimmable padding never changes the verdict |
| Sqli.OrderByNeedsY | src/main/java/com/immomo/momosec/utils/SQLi.java:32 | a fragment the order/group-by pattern matches contains the letter y in some case |
| Sqli.HavingNeedsG | src/main/java/com/immomo/momosec/utils/SQLi.java:33 | a fragment the having pattern matches contains the letter g in some case |
| Sqli.NoColumnListLetters | src/main/java/com/immomo/momosec/utils/SQLi.java:106-139 | on an item without y and g the verdict is exactly that the item is in no table or field position: the pattern exclusions never apply |
| Sqli.PlainFragmentVulnerable | src/main/java/com/immomo/momosec/utils/SQLi.java:102-141 | a lower-case fragment without y or g, trimmed up to trailing padding and in no table or field position, is vulnerable |
| Sqli.SelectValuePositions | src/test/java/com/immomo/momosec/utils/SQLiTest.java:32-34 | the two select fragments ending at a compared value are judged vulnerable |
| Sqli.InsertValuePosition | src/test/java/com/immomo/momosec/utils/SQLiTest.java:45 | the insert fragment ending inside its values list is judged vulnerable |
| Sqli.UpdateValuePositions | src/test/java/com/immomo/momosec/utils/SQLiTest.java:48-50 | the two update fragments ending at an assigned value are judged vulnerable |
| Sqli.DeleteValuePosition | src/test/java/com/immomo/momosec/utils/SQLiTest.java:53 | the delete fragment ending at a compared value is judged vulnerable |
| Sqli.PlainFragmentExcluded | src/main/java/com/immomo/momosec/utils/SQLi.java:102-141 | a lower-case fragment, trimmed up to trailing padding, that some exclusion applies to is not vulnerable |
| Sqli.UpperTableExcluded | src/main/java/com/immomo/momosec/utils/SQLi.java:104-139 | the same for a fragment holding the capitalised table name in a table or field position, judged through its lower case |
| Sqli.LimitNeedsLi | src/main/java/com/immomo/momosec/utils/SQLi.java:34 | a fragment the limit pattern matches holds an "li" in some case |
| Sqli.ByFragmentExcluded | src/main/java/com/immomo/momosec/utils/SQLi.java:106-112 | a lower-case fragment without "li" ending in "group by" or "order by" and at most one list item is not vulnerable |
| Sqli.HavingFragmentExcluded | src/main/java/com/immomo/momosec/utils/SQLi.java:113-114 | a lower-case fragment ending in "having" and at most one list item is not vulnerable |
| Sqli.SelectNamePositions | src/test/java/com/immomo/momosec/utils/SQLiTest.java:27-28 | the select-list fragments "select " and "select id," are not judged vulnerable |
| Sqli.SelectTablePositions | src/test/java/com/immomo/momosec/utils/SQLiTest.java:29-30 | the fragments ending in "from " and in "inner join" are not judged vulnerable |
| Sqli.OrderByPosition | src/test/java/com/immomo/momosec/utils/SQLiTest.java:35 | the fragment ending in "order by " is not judged vulnerable |
| Sqli.OrderByItemPosition | src/test/java/com/immomo/momosec/utils/SQLiTest.java:36 | the order-by fragment ending in "id, " is not judged vulnerable |
| Sqli.GroupByPosition | src/test/java/com/immomo/momosec/utils/SQLiTest.java:37 | the fragment ending in "group by " is not judged vulnerable |
| Sqli.GroupByItemPositions | src/test/java/com/immomo/momosec/utils/SQLiTest.java:38-39 | the group-by fragments ending in "sum(" and "sum(score)," are not judged vulnerable |
| Sqli.HavingPositions | src/test/java/com/immomo/momosec/utils/SQLiTest.java:40-41 | the two having fragments are not judged vulnerable |
| Sqli.InsertNamePositions | src/test/java/com/immomo/momosec/utils/SQLiTest.java:42-44 | "insert into ", "insert into TABLE(" and "insert into TABLE(id," are not judged vulnerable |
| Sqli.UpdateNamePositions | src/test/java/com/immomo/momosec/utils/SQLiTest.java:46-47 | "update " and "update TABLE set " are not judged vulnerable |
| Sqli.DeleteNamePosition | src/test/java/com/immomo/momosec/utils/SQLiTest.java:51 | "delete from " is not judged vulnerable |
| BaseSqli.SqlSplitOnPlaceholderNonEmpty | src/main/java/com/immomo/momosec/lang/java/rule/momosecurity/BaseSQLi.java:32-42 | text that isSql accepts always leaves a piece when split on the placeholder pattern, so the last-piece read of hasEvalAdditive cannot fail on it |
| BaseSqli.CheckedFragments | src/main/java/com/immomo/momosec/lang/java/rule/momosecurity/BaseSQLi.java:51-54 | the fragments judged are the split, or the split less its last piece; never fewer |
| BaseSqli.HasEvalAdditiveSplit | src/main/java/com/immomo/momosec/lang/java/rule/momosecurity/BaseSQLi.java:50-79 | true iff a checked fragment is vulnerable; a text without any delimiter match gives false |
| BaseSqli.IgnoreMethodName | src/main/java/com/immomo/momosec/lang/java/rule/momosecurity/BaseSQLi.java:81-107 | no enclosing call gives false; on a first call other than String.format the result is exactly its log-like name test, false when its name does not resolve; on String.format it is exactly the log-like name test of the next call out, and false when there is none |
| BaseSqli.LogLikeNameExtends | src/main/java/com/immomo/momosec/lang/java/rule/momosecurity/BaseSQLi.java:92-104 | embedding a log-like name in a longer name keeps it log-like |
| MybatisAnnotation.Unwrapped | src/main/java/com/immomo/momosec/lang/java/rule/momosecurity/MybatisAnnotationSQLi.java:108-110 | the text inside `<script>`...`</script>` when both tags are present, the whole text otherwise |
| MybatisAnnotation.HasSQLi | src/main/java/com/immomo/momosec/lang/java/rule/momosecurity/MybatisAnnotationSQLi.java:107-122 | flagged iff the text has a splice and some split fragment, the last dropped when there are several, is vulnerable |
| MybatisAnnotation.NoSpliceNotFlagged | src/main/java/com/immomo/momosec/lang/java/rule/momosecurity/MybatisAnnotationSQLi.java:112-115 | a text without `${...}` is never flagged |
| MybatisAnnotation.TrailingSpliceJudgedByPrefix | src/main/java/com/immomo/momosec/lang/java/rule/momosecurity/MybatisAnnotationSQLi.java:112-121 | a text whose only splice is at its end is judged on the text before it alone |
| MybatisAnnotation.LikeConcat | src/main/java/com/immomo/momosec/lang/java/rule/momosecurity/MybatisAnnotationSQLi.java:176 | the CONCAT text holds no `$` and ends with ") " |
| MybatisAnnotation.SpliceHashed | src/main/java/com/immomo/momosec/lang/java/rule/momosecurity/MybatisAnnotationSQLi.java:185 | replacing `$` by `#` turns a splice `${name}` whose name has no `$` into exactly `#{name}` |
| MybatisAnnotation.LikeConcatOfSplice | src/main/java/com/immomo/momosec/lang/java/rule/momosecurity/MybatisAnnotationSQLi.java:176 | a LIKE splice `${name}` becomes exactly " CONCAT('%', #{name}, '%') " |
| MybatisAnnotation.Unquote | src/main/java/com/immomo/momosec/lang/java/rule/momosecurity/MybatisAnnotationSQLi.java:181-184 | quote removal keeps a prefix of the prefix, at most one character shorter, and a tail of the suffix; an out-of-bounds cut is a failure |
| MybatisAnnotation.UnquoteByGap | src/main/java/com/immomo/momosec/lang/java/rule/momosecurity/MybatisAnnotationSQLi.java:181-184 | with the quote right before the splice the quote goes and the suffix loses its first character after ltrim; with one whitespace character between them the whitespace goes and the quote stays; with more the prefix cut is out of bounds |
| MybatisAnnotation.KindOf | src/main/java/com/immomo/momosec/lang/java/rule/momosecurity/MybatisAnnotationSQLi.java:169-186 | a splice stops the rewrite iff its prefix is judged safe; where-in is tested before LIKE on the lower-cased prefix, and a plain splice matches neither pattern |
| MybatisAnnotation.RewriteSplice | src/main/java/com/immomo/momosec/lang/java/rule/momosecurity/MybatisAnnotationSQLi.java:165-189 | one round resumes after the splice it rewrote or skipped, with no more `$` after the resume point than after the splice |
| MybatisAnnotation.LikeStepStrips | src/main/java/com/immomo/momosec/lang/java/rule/momosecurity/MybatisAnnotationSQLi.java:174-179 | a LIKE splice: the text before it up to its last character outside `'"% `, then the CONCAT, then the text after it from its first such character; the rewrite resumes on the closing space of the CONCAT |
| MybatisAnnotation.PlainSpliceUnquoted | src/main/java/com/immomo/momosec/lang/java/rule/momosecurity/MybatisAnnotationSQLi.java:180-185 | a plain splice between quotes, with whitespace allowed before the closing one, becomes its `#` form with both quotes gone and the rewrite resumes right after it |
| MybatisAnnotation.PlainSpliceBare | src/main/java/com/immomo/momosec/lang/java/rule/momosecurity/MybatisAnnotationSQLi.java:180-185 | a plain splice whose rtrimmed prefix ends in no quote becomes its `#` form with the text around it kept |
| MybatisAnnotation.NextRoundShrinks | src/main/java/com/immomo/momosec/lang/java/rule/momosecurity/MybatisAnnotationSQLi.java:163-190 | every round leaves fewer `$` after its resume point, so the recursion ends |
| MybatisAnnotation.RewriteKeepsSettledText | src/main/java/com/immomo/momosec/lang/java/rule/momosecurity/MybatisAnnotationSQLi.java:163-190 | the rewrite never changes the text before a settled resume point, whatever the classifier |
| MybatisAnnotation.LeftSpliceKeepsDollar | src/main/java/com/immomo/momosec/lang/java/rule/momosecurity/MybatisAnnotationSQLi.java:171-173 | a splice the classifier leaves alone keeps its `$` in the result |
| MybatisAnnotation.WhereInKeepsDollar | src/main/java/com/immomo/momosec/lang/java/rule/momosecurity/MybatisAnnotationSQLi.java:171-173 | a where-in splice is never rewritten: the result still contains `$` |
| MybatisAnnotation.SafeSpliceStopsRewrite | src/main/java/com/immomo/momosec/lang/java/rule/momosecurity/MybatisAnnotationSQLi.java:164-169 | a first splice with a safe prefix returns the text unchanged, later splices unvisited |
| MybatisAnnotation.ApplyFix | src/main/java/com/immomo/momosec/lang/java/rule/momosecurity/MybatisAnnotationSQLi.java:132-161 | only a literal is rewritten; the help comment is added iff the fix is incomplete (a `$` remains, or nothing was rewritten) and there is an enclosing method |
| MybatisAnnotation.WhereInGetsHelpComment | src/main/java/com/immomo/momosec/lang/java/rule/momosecurity/MybatisAnnotationSQLi.java:138-160 | a vulnerable where-in splice always ends with the help comment inside a method |
| MybatisXml.SplicesFrom | src/main/java/com/immomo/momosec/lang/xml/rule/momosecurity/MybatisXmlSQLi.java:71-82 | the splices visited from an offset, in order, each a `${name}` position at or after the offset; none iff find fails |
| MybatisXml.ReportedInIff | src/main/java/com/immomo/momosec/lang/xml/rule/momosecurity/MybatisXmlSQLi.java:73-82 | ReportedIn, the scan over the visited splices, is true iff one of them is judged reportable |
| MybatisXml.ReportedFromStep | src/main/java/com/immomo/momosec/lang/xml/rule/momosecurity/MybatisXmlSQLi.java:73-82 | ReportedFrom, the scan from an offset: the first splice decides, or the scan continues from its end |
| MybatisXml.ReportedHasDollarBrace | src/main/java/com/immomo/momosec/lang/xml/rule/momosecurity/MybatisXmlSQLi.java:68-69 | a reported text is non-empty and contains "${", so the early return loses nothing |
| MybatisXml.FlaggedIff | src/main/java/com/immomo/momosec/lang/xml/rule/momosecurity/MybatisXmlSQLi.java:56-83 | FlaggedWith, the verdict on a text: reported iff its parent is not sql/mapper, the DTD names a MyBatis mapper and some splice is not ignored and has a vulnerable prefix |
| MybatisXml.VisitXmlText | src/main/java/com/immomo/momosec/lang/xml/rule/momosecurity/MybatisXmlSQLi.java:56-83 | the guards and the offset loop compute that verdict |
| MybatisXml.ForeachTag | src/main/java/com/immomo/momosec/lang/xml/rule/momosecurity/MybatisXmlSQLi.java:182-194 | the foreach tag has collection name, item name+"Item", "(" "," ")" and body ws + "#{item}" + ws |
| MybatisXml.InUnwrap | src/main/java/com/immomo/momosec/lang/xml/rule/momosecurity/MybatisXmlSQLi.java:119-122 | parenthesis removal keeps a prefix of the prefix, at most one shorter, and a tail of the suffix; an out-of-bounds cut is a failure |
| MybatisXmlProperties.InUnwrapByGap | src/main/java/com/immomo/momosec/lang/xml/rule/momosecurity/MybatisXmlSQLi.java:119-122 | with `(` right before the splice the parenthesis goes; with one whitespace character between, the whitespace goes and `(` stays; with more the prefix cut is out of bounds; the `)` after the splice goes with the whitespace before it |
| MybatisXmlProperties.XmlLikeStepStrips | src/main/java/com/immomo/momosec/lang/xml/rule/momosecurity/MybatisXmlSQLi.java:161-169 | a LIKE splice: the text before it up to its last character outside `'"% ` and line breaks, then the CONCAT, then the text after it from its first character outside `'"% `; the fix resumes right after the CONCAT |
| MybatisXml.XmlUnquote | src/main/java/com/immomo/momosec/lang/xml/rule/momosecurity/MybatisXmlSQLi.java:171-174 | the same for quotes, the test on String.trim and the cuts on rtrim and ltrim |
| MybatisXml.XmlKindOf | src/main/java/com/immomo/momosec/lang/xml/rule/momosecurity/MybatisXmlSQLi.java:112-177 | a splice is skipped iff its name is ignored or its prefix is safe; where-in before LIKE before plain |
| MybatisXml.XmlRewriteSplice | src/main/java/com/immomo/momosec/lang/xml/rule/momosecurity/MybatisXmlSQLi.java:117-177 | one round resumes at or before the end of its new text; without a parent it emits no node; a where-in splice runs the parenthesis cut before the parent test |
| MybatisXml.XmlRoundShrinks | src/main/java/com/immomo/momosec/lang/xml/rule/momosecurity/MybatisXmlSQLi.java:104-180 | every round leaves fewer `$` after its resume point, so the fix ends |
| MybatisXml.RewriteWhereIn | src/main/java/com/immomo/momosec/lang/xml/rule/momosecurity/MybatisXmlSQLi.java:117-157 | a where-in splice under a parent emits Text(prefix + ws), then the foreach tag, and rescans ws + suffix from 0 |
| MybatisXml.WhereInNoParent | src/main/java/com/immomo/momosec/lang/xml/rule/momosecurity/MybatisXmlSQLi.java:117-124 | without a parent, a where-in splice still goes through the parenthesis cut first: a failed cut is a failure, otherwise the text is kept and the scan resumes after the splice |
| MybatisXmlProperties.NoParentWideGapFails | src/main/java/com/immomo/momosec/lang/xml/rule/momosecurity/MybatisXmlSQLi.java:119-123 | with two or more whitespace characters between `(` and the splice, and `)` after it, the round fails even without a parent tag |
| MybatisXml.FixRound | src/main/java/com/immomo/momosec/lang/xml/rule/momosecurity/MybatisXmlSQLi.java:107-178 | one pass of the loop body equals the round function |
| MybatisXml.FixXmlText | src/main/java/com/immomo/momosec/lang/xml/rule/momosecurity/MybatisXmlSQLi.java:104-180 | the loop with its recursion equals the fix function |
| MybatisXmlProperties.FixAlternates | src/main/java/com/immomo/momosec/lang/xml/rule/momosecurity/MybatisXmlSQLi.java:133-157 | the fix leaves text first and last, with foreach tags and texts alternating between |
| MybatisXmlProperties.NoParentSingleText | src/main/java/com/immomo/momosec/lang/xml/rule/momosecurity/MybatisXmlSQLi.java:158-160 | without a parent tag the fix leaves exactly one text |
| MybatisXmlProperties.UnjudgedUnchanged | src/main/java/com/immomo/momosec/lang/xml/rule/momosecurity/MybatisXmlSQLi.java:112-115 | a text the scan does not report comes out unchanged when the fix skips what the scan does not report |
| MybatisXmlProperties.UnreportedUnchanged | src/main/java/com/immomo/momosec/lang/xml/rule/momosecurity/MybatisXmlSQLi.java:73-82 | the quick fix changes nothing in a text visitXmlText would not report |
| MybatisXmlProperties.FixKeepsSettledText | src/main/java/com/immomo/momosec/lang/xml/rule/momosecurity/MybatisXmlSQLi.java:104-180 | the fix never changes the text before a settled point: its first node starts with it |
| MybatisXmlProperties.QuotedPrefix | src/main/java/com/immomo/momosec/lang/xml/rule/momosecurity/MybatisXmlSQLi.java:171-172 | a quote followed by whitespace passes the trim test, and rtrim stops at the quote |
| MybatisXmlProperties.UnquoteByGap | src/main/java/com/immomo/momosec/lang/xml/rule/momosecurity/MybatisXmlSQLi.java:171-173 | the cut by the untrimmed length removes the quote only when it is right before the splice; with one whitespace character between them the quote stays, with more the cut fails |
| PolyadicSqli.FragmentsOf | src/main/java/com/immomo/momosec/lang/java/rule/momosecurity/PolyadicExpressionSQLi.java:65-67 | one fragment per deconstructed part, in order |
| PolyadicSqli.SegmentsFrom | src/main/java/com/immomo/momosec/lang/java/rule/momosecurity/PolyadicExpressionSQLi.java:65-84 | no segment is empty, and there are at most as many segments as variable parts |
| PolyadicSqli.SegmentsArePrefix | src/main/java/com/immomo/momosec/lang/java/rule/momosecurity/PolyadicExpressionSQLi.java:65-83 | the segments joined are a prefix of the buffer plus everything rendered |
| PolyadicSqli.TrailingPartsIgnored | src/main/java/com/immomo/momosec/lang/java/rule/momosecurity/PolyadicExpressionSQLi.java:84 | parts after the last variable part never reach a segment |
| PolyadicSqli.ConstantPartsNoSegment | src/main/java/com/immomo/momosec/lang/java/rule/momosecurity/PolyadicExpressionSQLi.java:66-79 | without a variable part there is no segment |
| PolyadicSqli.BuildSegments | src/main/java/com/immomo/momosec/lang/java/rule/momosecurity/PolyadicExpressionSQLi.java:61-83 | the buffer loop computes the segments and the hasVar flag |
| PolyadicSqli.ConcatReportIff | src/main/java/com/immomo/momosec/lang/java/rule/momosecurity/PolyadicExpressionSQLi.java:54-97 | the concatenation message iff non-empty parts, SQL text, segments, hasVar, a vulnerable segment and no log-like caller |
| PolyadicSqli.PlaceholderReportIff | src/main/java/com/immomo/momosec/lang/java/rule/momosecurity/PolyadicExpressionSQLi.java:86-105 | otherwise the placeholder message iff the text has a placeholder, is SQL, its placeholder split is vulnerable and no log-like caller |
| PolyadicSqli.ConstantsNeverConcatReport | src/main/java/com/immomo/momosec/lang/java/rule/momosecurity/PolyadicExpressionSQLi.java:65-93 | constants alone never give the concatenation message, and without a placeholder no message at all |
| PolyadicSqli.TextVariablesNeverConcatReport | src/main/java/com/immomo/momosec/lang/java/rule/momosecurity/PolyadicExpressionSQLi.java:74-76 | variable parts that all have a text never give the concatenation message |
| PolyadicSqli.IgnoredNeverReported | src/main/java/com/immomo/momosec/lang/java/rule/momosecurity/PolyadicExpressionSQLi.java:89-97 | a log-like caller suppresses both messages |
| PolyadicSqli.VisitPolyadic | src/main/java/com/immomo/momosec/lang/java/rule/momosecurity/PolyadicExpressionSQLi.java:53-99 | deconstruct, join the forced texts, build segments and decide |
| PlaceholderSqli.FormatIndex | src/main/java/com/immomo/momosec/lang/java/rule/momosecurity/PlaceholderStringSQLi.java:62-66 | the format text is argument 1 iff argument 0's type text is "Locale", else argument 0 |
| PlaceholderSqli.FormatText | src/main/java/com/immomo/momosec/lang/java/rule/momosecurity/PlaceholderStringSQLi.java:67-78 | a format text comes only from a literal or a local's literal initializer |
| PlaceholderSqli.ConcatFrom | src/main/java/com/immomo/momosec/lang/java/rule/momosecurity/PlaceholderStringSQLi.java:89-101 | one fragment per piece whose positional argument exists and can carry SQL |
| PlaceholderSqli.FragmentsArePrefix | src/main/java/com/immomo/momosec/lang/java/rule/momosecurity/PlaceholderStringSQLi.java:89-101 | the fragments joined are a prefix of what the buffer sees |
| PlaceholderSqli.NoCareArgumentNoFragment | src/main/java/com/immomo/momosec/lang/java/rule/momosecurity/PlaceholderStringSQLi.java:94-99 | no SQL-relevant argument after the format text, no fragment |
| PlaceholderSqli.NoCareArgumentNoReport | src/main/java/com/immomo/momosec/lang/java/rule/momosecurity/PlaceholderStringSQLi.java:89-109 | no SQL-relevant argument, no report |
| PlaceholderSqli.ReportNeeds | src/main/java/com/immomo/momosec/lang/java/rule/momosecurity/PlaceholderStringSQLi.java:55-109 | a report needs String.format, arguments, a format text with a placeholder that is SQL, and no log-like caller |
| PlaceholderSqli.LocaleShiftsFormat | src/main/java/com/immomo/momosec/lang/java/rule/momosecurity/PlaceholderStringSQLi.java:62-78 | after a Locale the second argument is the format text; a non-literal there means no report |
| PlaceholderSqli.VisitFormatCall | src/main/java/com/immomo/momosec/lang/java/rule/momosecurity/PlaceholderStringSQLi.java:54-111 | the rule as written, including the out-of-bounds read after a lone Locale argument |
| PlaceholderSqli.ConcatOf | src/main/java/com/immomo/momosec/lang/java/rule/momosecurity/PlaceholderStringSQLi.java:89-101 | the loop computes the fragment function |
| ExpressionUtils.LiteralInnerText | src/main/java/com/immomo/momosec/lang/java/utils/MoExpressionUtils.java:60-69 | only a literal has an inner text |
| ExpressionUtils.GetText | src/main/java/com/immomo/momosec/lang/java/utils/MoExpressionUtils.java:94-142 | forced texts always exist, field references always have one, a literal's is its value |
| ExpressionUtils.OperandsTextIff | src/main/java/com/immomo/momosec/lang/java/utils/MoExpressionUtils.java:123-136 | the operands have a joined text iff each has a text, and it is theirs concatenated |
| ExpressionUtils.ForceKeepsText | src/main/java/com/immomo/momosec/lang/java/utils/MoExpressionUtils.java:138-140 | forcing never changes a text that already exists |
| ExpressionUtils.GetTextOf | src/main/java/com/immomo/momosec/lang/java/utils/MoExpressionUtils.java:94-142 | the buffer loop with its reset computes getText |
| ExpressionUtils.CustomLiteral | src/main/java/com/immomo/momosec/lang/java/utils/MoExpressionUtils.java:242-244 | the literal built from a text has that text as its value |
| ExpressionUtils.Decon | src/main/java/com/immomo/momosec/lang/java/utils/MoExpressionUtils.java:287-336 | an operator other than `+` gives no parts |
| ExpressionUtils.DeconOperand | src/main/java/com/immomo/momosec/lang/java/utils/MoExpressionUtils.java:291-331 | an operand that is not a field spliced from a concatenation gives exactly one part |
| ExpressionUtils.DeconOnePerOperand | src/main/java/com/immomo/momosec/lang/java/utils/MoExpressionUtils.java:291-332 | without spliced fields the parts keep operand order, and other operands stay as they are |
| ExpressionUtils.ConstLocalBecomesName | src/main/java/com/immomo/momosec/lang/java/utils/MoExpressionUtils.java:296-301 | a constant local String becomes a literal of its name, not its value |
| ExpressionUtils.DeconOf | src/main/java/com/immomo/momosec/lang/java/utils/MoExpressionUtils.java:287-336 | the accumulating loop computes the deconstruction |
| ExpressionUtils.CareTypeTest | src/main/java/com/immomo/momosec/lang/java/utils/MoExpressionUtils.java:246-276 | a known type outside String/StringBuilder/StringBuffer is never of interest; a non-call of unknown or text type always is |
| ExpressionUtils.ListedIsJoin | src/main/java/com/immomo/momosec/lang/java/utils/MoExpressionUtils.java:510-522 | deleting the last ", " of the appended parameters leaves them joined with ", " |
| ExpressionUtils.MethodFQNameOf | src/main/java/com/immomo/momosec/lang/java/utils/MoExpressionUtils.java:497-525 | the append-then-delete builder computes "class return name(type param, ...)" |
| ExpressionUtils.FirstUpTo | src/main/java/com/immomo/momosec/lang/java/utils/MoExpressionUtils.java:154-226 | the walk finds the first target node unless a stop node comes first; None means none before a stop |
| ExpressionUtils.WalkUp | src/main/java/com/immomo/momosec/lang/java/utils/MoExpressionUtils.java:154-226 | the parent-chasing loop computes that walk |
| ExpressionUtils.UnboundedWalkFinds | src/main/java/com/immomo/momosec/lang/java/utils/MoExpressionUtils.java:186-226 | without a stop kind a node of the kind is found whenever one exists, at or before it |
| ExpressionUtils.ElementFQName | src/main/java/com/immomo/momosec/lang/java/utils/MoExpressionUtils.java:527-538 | outside any method and class the name is "null" |
| ExpressionUtils.ElementInMethod | src/main/java/com/immomo/momosec/lang/java/utils/MoExpressionUtils.java:527-538 | inside a method the name is that method's signature |
| Xxe.FactoryOfCreator | src/main/java/com/immomo/momosec/lang/java/rule/momosecurity/XxeInspector.java:84-110 | every factory is recognized from its own creating expression |
| Xxe.CheckedMethodName | src/main/java/com/immomo/momosec/lang/java/rule/momosecurity/XxeInspector.java:84-109 | setFeature exactly for the DOCTYPE kinds, setAttribute for the two transformer factories, setProperty for schema, XML input and validator |
| Xxe.ElemTypeOf | src/main/java/com/immomo/momosec/lang/java/rule/momosecurity/XxeInspector.java:112-132 | the case is chosen by the parent, or by the grandparent through a cast only for the transformer factories |
| Xxe.RequiredRules | src/main/java/com/immomo/momosec/lang/java/rule/momosecurity/XxeInspector.java:205-229 | DOCTYPE kinds need disallow-doctype-decl, the others external DTD and stylesheet; all start unsatisfied |
| Xxe.SatisfiedKey | src/main/java/com/immomo/momosec/lang/java/rule/momosecurity/XxeInspector.java:236-271 | a call satisfies only a required rule, and only with the checked name and two arguments |
| Xxe.Replace | src/main/java/com/immomo/momosec/lang/java/rule/momosecurity/XxeInspector.java:249-267 | Map.replace updates only a key already present |
| Xxe.VisitMonotone | src/main/java/com/immomo/momosec/lang/java/rule/momosecurity/XxeInspector.java:232-287 | a visit never un-satisfies a rule and keeps a found fix |
| Xxe.WalkMonotone | src/main/java/com/immomo/momosec/lang/java/rule/momosecurity/XxeInspector.java:232-287 | neither does a walk |
| Xxe.FixNeedsAllRules | src/main/java/com/immomo/momosec/lang/java/rule/momosecurity/XxeInspector.java:273-282 | a fix is found only with every rule satisfied |
| Xxe.SecuredMeansAllRules | src/main/java/com/immomo/momosec/lang/java/rule/momosecurity/XxeInspector.java:273-282 | a secured factory had every required rule satisfied |
| Xxe.UnmetRuleBlocksFix | src/main/java/com/immomo/momosec/lang/java/rule/momosecurity/XxeInspector.java:236-282 | a required rule no call satisfies blocks the fix |
| Xxe.DtdAloneInsecure | src/main/java/com/immomo/momosec/lang/java/rule/momosecurity/XxeInspector.java:225-228 | disabling external DTDs without external stylesheets is still reported |
| Xxe.OtherVariableNeverFixes | src/main/java/com/immomo/momosec/lang/java/rule/momosecurity/XxeInspector.java:273-276 | settings on another variable never find the fix |
| Xxe.EntityVisitor.constructor | src/main/java/com/immomo/momosec/lang/java/rule/momosecurity/XxeInspector.java:205-230 | a fresh visitor holds the factory's required rules, all false, and no fix |
| Xxe.EntityVisitor.VisitCall | src/main/java/com/immomo/momosec/lang/java/rule/momosecurity/XxeInspector.java:232-287 | visitElement on one call updates the rule map and the fix flag as the visit function |
| Xxe.EntityVisitor.Walk | src/main/java/com/immomo/momosec/lang/java/rule/momosecurity/XxeInspector.java:232-287 | the walk visits the calls in order until the fix stops it |
| Xxe.VarName | src/main/java/com/immomo/momosec/lang/java/rule/momosecurity/XxeInspector.java:313-325 | there is no variable name exactly for an assignment to something other than a plain reference |
| Xxe.FixCalls | src/main/java/com/immomo/momosec/lang/java/rule/momosecurity/XxeInspector.java:330-351 | the fix calls use the factory's setter with two arguments on the variable |
| Xxe.FixStatements | src/main/java/com/immomo/momosec/lang/java/rule/momosecurity/XxeInspector.java:325-352 | no statement without a name; one for the DOCTYPE kinds, two for the others |
| Xxe.FixStatementsCallSetter | src/main/java/com/immomo/momosec/lang/java/rule/momosecurity/XxeInspector.java:337-350 | every statement calls the factory's setter on the variable |
| Xxe.FixCallsSecure | src/main/java/com/immomo/momosec/lang/java/rule/momosecurity/XxeInspector.java:330-351 | the calls the fix writes secure the factory, so the fix clears the report |
| Xxe.InsertStatements | src/main/java/com/immomo/momosec/lang/java/rule/momosecurity/XxeInspector.java:360-402 | the statements land in order right after the creating statement, the rest of the block kept |
| Feedback.MarkupFlush | src/main/java/com/immomo/momosec/FeedbackService.java:82-85 | the table is handed off iff the signature is new and the table holds more than 30 findings |
| Feedback.Markup | src/main/java/com/immomo/momosec/FeedbackService.java:77-95 | a known signature changes nothing; otherwise the finding is added, to an emptied table when over the threshold |
| Feedback.MarkFixed | src/main/java/com/immomo/momosec/FeedbackService.java:97-102 | only a recorded finding gets status 1; all others are unchanged |
| Feedback.MarkupBounded | src/main/java/com/immomo/momosec/FeedbackService.java:61-85 | the table never holds more than 31 findings |
| Feedback.MarkupIdempotent | src/main/java/com/immomo/momosec/FeedbackService.java:82 | recording the same signature again changes nothing and hands nothing off |
| Feedback.MarkupKeepsOthers | src/main/java/com/immomo/momosec/FeedbackService.java:83-94 | below the threshold every recorded finding stays |
| Feedback.MarkFixedIdempotent | src/main/java/com/immomo/momosec/FeedbackService.java:97-102 | marking fixed twice is marking fixed once |
| Feedback.MarkupLosesNothing | src/main/java/com/immomo/momosec/FeedbackService.java:83-106 | every old finding is still recorded or in the handed-off snapshot |
| Feedback.PayloadOf | src/main/java/com/immomo/momosec/FeedbackService.java:113-128 | no payload for an empty snapshot; otherwise the snapshot with the git texts, or "null (null)" and "null<null>" |
| Feedback.MissingGitInfoAsUnset | src/main/java/com/immomo/momosec/FeedbackService.java:116-121 | a missing git info posts the same texts as one with nothing set |
| Feedback.FeedbackService.constructor | src/main/java/com/immomo/momosec/FeedbackService.java:62-68 | an empty table, nothing handed off |
| Feedback.FeedbackService.FeedbackMarkupVulns | src/main/java/com/immomo/momosec/FeedbackService.java:104-111 | the snapshot handed off is the old table and the table is emptied |
| Feedback.FeedbackService.MarkupVuln | src/main/java/com/immomo/momosec/FeedbackService.java:77-95 | the table becomes Markup of the old one, with the flushed snapshot handed off, and stays within 31 |
| Feedback.FeedbackService.MarkupVulnFix | src/main/java/com/immomo/momosec/FeedbackService.java:97-102 | the table becomes MarkFixed of the old one |
| Feedback.FeedbackService.Dispose | src/main/java/com/immomo/momosec/FeedbackService.java:113-179 | posts the payload of the live table, then leaves it empty |
| GitInfoEntity.UserWithEmailRoundTrip | src/main/java/com/immomo/momosec/entity/GitInfo.java:56-60 | a user name without '<' and its email are read back from "name<email>", null as "null" |
| GitInfoEntity.AddrWithBranchRoundTrip | src/main/java/com/immomo/momosec/entity/GitInfo.java:62-66 | an address without '(' and its branch are read back from "address (branch)", null as "null" |
| GitInfoEntity.UnsetPrintsNull | src/main/java/com/immomo/momosec/entity/GitInfo.java:56-66 | an entity with nothing set prints "null<null>" and "null (null)" |
| GitInfoEntity.GitInfo.constructor | src/main/java/com/immomo/momosec/entity/GitInfo.java:18-22 | every field starts null |
| GitInfoEntity.GitInfo.SetAddress | src/main/java/com/immomo/momosec/entity/GitInfo.java:24-30 | the getter returns the value set; the other fields are unchanged |
| GitInfoEntity.GitInfo.SetBranch | src/main/java/com/immomo/momosec/entity/GitInfo.java:32-38 | the getter returns the value set; the other fields are unchanged |
| GitInfoEntity.GitInfo.SetUserName | src/main/java/com/immomo/momosec/entity/GitInfo.java:40-46 | the getter returns the value set; the other fields are unchanged |
| GitInfoEntity.GitInfo.SetUserEmail | src/main/java/com/immomo/momosec/entity/GitInfo.java:48-54 | the getter returns the value set; the other fields are unchanged |
| HardcodedIp.ParseInt | src/main/java/com/immomo/momosec/lang/java/rule/momosecurity/HardcodedIp.java:66 | a parsed value fits in 32 bits |
| HardcodedIp.LenientOctets | src/main/java/com/immomo/momosec/lang/java/rule/momosecurity/HardcodedIp.java:63-79 | "+1", "-0" and "010" pass as octets; "256", "-1" and "" do not |
| HardcodedIp.DecimalValue | src/main/java/com/immomo/momosec/lang/java/rule/momosecurity/HardcodedIp.java:66 | the decimal text of a number reads back as that number |
| HardcodedIp.DottedQuadPieces | src/main/java/com/immomo/momosec/lang/java/rule/momosecurity/HardcodedIp.java:58-61 | a dotted quad splits into its four decimal texts |
| HardcodedIp.ObjectIdPrefix | src/main/java/com/immomo/momosec/lang/java/rule/momosecurity/HardcodedIp.java:84 | a canonical quad starts with "2.5." iff its first two octets are 2 and 5 |
| HardcodedIp.QuadInjective | src/main/java/com/immomo/momosec/lang/java/rule/momosecurity/HardcodedIp.java:82-83 | different octets give different texts |
| HardcodedIp.BroadcastText | src/main/java/com/immomo/momosec/lang/java/rule/momosecurity/HardcodedIp.java:82 | only 255.255.255.255 is the broadcast text |
| HardcodedIp.UnspecifiedText | src/main/java/com/immomo/momosec/lang/java/rule/momosecurity/HardcodedIp.java:83 | only 0.0.0.0 is the unspecified text |
| HardcodedIp.QuadLength | src/main/java/com/immomo/momosec/lang/java/rule/momosecurity/HardcodedIp.java:53-55 | a canonical quad of octets is 7 to 15 characters |
| HardcodedIp.CanonicalSensitive | src/main/java/com/immomo/momosec/lang/java/rule/momosecurity/HardcodedIp.java:51-90 | IsSensitiveIp on a canonical address: true iff it is not loopback 127, broadcast, unspecified or under 2.5. |
| HardcodedIp.LiteralQuadReported | src/main/java/com/immomo/momosec/lang/java/rule/momosecurity/HardcodedIp.java:39-46 | Reported, the literal visit: a canonical address is reported iff the literal is a string literal and the address is public; a literal without a value never is |
| HardcodedIp.TrailingDotReported | src/main/java/com/immomo/momosec/lang/java/rule/momosecurity/HardcodedIp.java:53-61 | a public address followed by '.' is still reported while it fits in 15 characters, since split drops the empty last piece |
| Jackson.FirstFlagged | src/main/java/com/immomo/momosec/lang/java/rule/momosecurity/JacksonDatabindDefaultTyping.java:80-92 | the first `use` pair naming classes, with none flagged before it |
| Jackson.VisitAnnotation | src/main/java/com/immomo/momosec/lang/java/rule/momosecurity/JacksonDatabindDefaultTyping.java:76-95 | only JsonTypeInfo is inspected, and only its first flagged pair is reported |
| Jackson.ReportedIffFlagged | src/main/java/com/immomo/momosec/lang/java/rule/momosecurity/JacksonDatabindDefaultTyping.java:80-92 | an annotation is reported iff some pair is flagged |
| Jackson.FixUnflags | src/main/java/com/immomo/momosec/lang/java/rule/momosecurity/JacksonDatabindDefaultTyping.java:80-92 | Flagged, the pair test: a `use` pair naming classes is flagged no longer once the fix has written NAME into its value |
| Jackson.FixedPieces | src/main/java/com/immomo/momosec/lang/java/rule/momosecurity/JacksonDatabindDefaultTyping.java:140-145 | the fix keeps the piece count and every piece but the last |
| Jackson.ApplyAnnotationFix | src/main/java/com/immomo/momosec/lang/java/rule/momosecurity/JacksonDatabindDefaultTyping.java:135-150 | the array overwrite and join compute the fixed text |
| Jackson.FixRenames | src/main/java/com/immomo/momosec/lang/java/rule/momosecurity/JacksonDatabindDefaultTyping.java:140-148 | a dotted value ending in CLASS or MINIMAL_CLASS gets NAME there, the rest kept |
| Jackson.FixTypeId | src/main/java/com/immomo/momosec/lang/java/rule/momosecurity/JacksonDatabindDefaultTyping.java:140-148 | JsonTypeInfo.Id.CLASS and JsonTypeInfo.Id.MINIMAL_CLASS become JsonTypeInfo.Id.NAME |
| Jackson.FixClearsReport | src/main/java/com/immomo/momosec/lang/java/rule/momosecurity/JacksonDatabindDefaultTyping.java:85-148 | a fixed value is no longer reported |
| Jackson.FixKeepsOtherValues | src/main/java/com/immomo/momosec/lang/java/rule/momosecurity/JacksonDatabindDefaultTyping.java:140-148 | other values not ending in '.' are written back unchanged |
| Jackson.WalkSerializer | src/main/java/com/immomo/momosec/lang/java/rule/momosecurity/JacksonDatabindDefaultTyping.java:106-124 | the fix is found iff some call hands the mapper to setObjectMapper as its only argument |
| Jackson.VisitEnableDefaultTyping | src/main/java/com/immomo/momosec/lang/java/rule/momosecurity/JacksonDatabindDefaultTyping.java:53-73 | reported unless the qualifier resolves to a mapper handed to a Redis serializer |
| Jackson.OtherMapperStillReported | src/main/java/com/immomo/momosec/lang/java/rule/momosecurity/JacksonDatabindDefaultTyping.java:54-71 | handing another variable over does not exempt the mapper |

## Left out

- Host plumbing is not modelled: visitors, problem registration and the PSI insert, replace and delete calls. Edits are returned values instead.
- XXE try/catch, throws and import fixes are left out (XxeInspector.java:364-394, 433-455, 467-487).
- The XXE fix on a class field goes through a class initializer (XxeInspector.java:403-464). Only its statement list is modelled.
- The order in which a walk visits calls is given as an input sequence, and each walker's descent rule decides which calls it holds. The XXE walker never descends into a method call (XxeInspector.java:284 returns before the super call), so calls nested in another call's arguments or qualifier are not in its sequence. The Jackson walker descends into a call it does not accept (JacksonDatabindDefaultTyping.java:123), so nested calls appear after the call that holds them. The one exception is a setObjectMapper call with other than one argument: it returns without descending (JacksonDatabindDefaultTyping.java:111). Such a call does not compile against the one-argument setter, so the model does not separate it out.
- `checkVariableUseFix` selects the scope to walk (MomoBaseLocalInspectionTool.java:49-107). It is host traversal and is not modelled; the scope is the input call list.
- The reference search behind `isConstStringConcatToReference` and `isConstStringBuilderToReference` is an oracle flag on a local reference. So are the host's constant judgement and its resolution of references.
- ExpressionUtils.CustomLiteral does not model the escaping of `"` in getCustomLiteral. The value is the text itself, which is what the host parses back.
- A field whose initializer refers back to itself would make getText loop in the source. The model's expressions are finite trees.
- Parenthesised expressions are not modelled.
- The MyBatis annotation's visitAnnotation is not modelled (MybatisAnnotationSQLi.java:74-103). It assembles the content from the host's annotation values. hasSQLi, the rewrite and the fix decision are modelled.
- In the XML where-in branch the whitespace element is one parameter `ws` for the whole fix. The source re-reads it on every where-in rewrite from the last child of the text being rewritten, or uses "\n" (MybatisXmlSQLi.java:126-131). That includes the suffix text it recurses into (MybatisXmlSQLi.java:152-154), so the model does not capture a fix whose rounds see different whitespace.
- The XML where-in suffix is appended as the parent's last child, and the model assumes the rewritten text is that child.
- When a rewrite fails on an out-of-bounds cut, the edits already applied are not modelled. The whole fix is a `Failure`.
- String.toLowerCase is Unicode-aware; JavaString.Lower handles ASCII only. Pattern matching in the source is ASCII case-insensitive, as modelled.
- Integer.parseInt also accepts non-ASCII Unicode digits; HardcodedIp.ParseInt accepts ASCII digits only.
- Of the concrete tables in the source's tests, every active row of SQLiTest.java is proved, those judged vulnerable and those excluded. The rows commented out there are not. The other tests' tables are not encoded; the properties their rows illustrate are stated generally instead.
- The vulnerability signature (`getVulnSign`, a MurmurHash3 call) is a parameter `sign`.
- The plugin version is a parameter.
- Feedback posting is left out: the HTTP request, the background thread, the reload of git info after posting, getCurrFilename and the file listener that posts on a branch change.
- The feedback table is modelled as a map of finding records, not as JSON objects.
- GitInfo parsing is not part of the source: GitInfoEntity.ParseUserWithEmail and GitInfoEntity.ParseAddrWithBranch exist only as the inverse that the round-trip lemmas use.
