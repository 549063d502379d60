/** What the handler reads from the browser, as plain data: each query of the HTML
    document is replaced by the sequence of elements it would return. */
module Dom {
  import opened Wrappers

  /** An <a> element. `windowLocation` is what the pattern window.location\s*=\s*('|")(.*?)('|")
      extracts from its outer HTML, None when it does not match. */
  datatype Anchor = Anchor(className: string, href: string, text: string, windowLocation: Option<string>)

  /** A <td>: its headers attribute, inner text, inner HTML and the <a> elements inside it. */
  datatype Cell = Cell(headers: string, text: string, html: string, anchors: seq<Anchor>)

  /** A <tr>: its inner HTML and its <td> elements. */
  datatype Row = Row(html: string, cells: seq<Cell>)

  datatype Table = Table(className: string, rows: seq<Row>)

  /** A <ul> of the grading form and the <a> elements inside it. */
  datatype ListElement = ListElement(className: string, anchors: seq<Anchor>)

  /** The document at the time of a completion signal.
      anchors:   the <a> elements of the top document;
      siteCells: the <td> elements of table "currentSites" in frame 0;
      tables:    the <table> elements of frame 1 (assignment or submission list);
      lists:     the <ul> elements of frame 1 (grading form). */
  datatype Page = Page(anchors: seq<Anchor>, siteCells: seq<Cell>, tables: seq<Table>, lists: seq<ListElement>)

  /** What a navigation is issued on: webBrowser itself, or Window.Frames[0] (the login
      frame) or Window.Frames[1] (the content frame) of its document. */
  datatype Frame = Window | LoginFrame | ContentFrame
  datatype Navigation = Navigation(frame: Frame, url: string)
}
